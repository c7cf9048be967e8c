/**
 * The handlers that keep the two history levels consistent: strict chaining
 * of `valid_to` and `sys_to`, the meta write and activation scheduling after
 * a history save, and schedule cancellation and chain repair around a
 * history delete.
 */
module BitemporalSignals {
  import opened Common
  import opened Chain
  import opened BitemporalModel
  import opened StrictChaining
  import opened MetaHistory

  // ---------------------------------------------------------------------------
  // Strict chaining of valid_to
  // ---------------------------------------------------------------------------

  /** One `valid_to` rewrite made by the chaining loop. */
  datatype ChainWrite = ChainWrite(historyId: nat, oldTo: Option<Timestamp>, newTo: Option<Timestamp>)

  /**
   * A rewrite is a refinement when the window end moves from one finite
   * value to another; the meta level then updates in place.
   */
  predicate IsRefinement(w: ChainWrite) {
    w.oldTo.Some? && w.newTo.Some?
  }

  /** The rewrite chaining computes for history row `x` of `h`, whether or not it changes anything. */
  function WriteFor(h: seq<HistoryRecord>, x: HistoryRecord): ChainWrite {
    ChainWrite(x.historyId, x.validTo, ChainTarget(h, x))
  }

  /** The history with the row whose id is `id` given `valid_to` `v`. */
  function SetValidTo(h: seq<HistoryRecord>, id: nat, v: Option<Timestamp>): seq<HistoryRecord> {
    seq(|h|, i requires 0 <= i < |h| => if h[i].historyId == id then h[i].(validTo := v) else h[i])
  }

  /** `h0` with the rows whose ids are in `done` replaced by their version in `goal`. */
  ghost function Progress(h0: seq<HistoryRecord>, goal: seq<HistoryRecord>, done: set<nat>): seq<HistoryRecord> {
    seq(|h0|, i requires 0 <= i < |h0| => if h0[i].historyId in done && i < |goal| then goal[i] else h0[i])
  }

  /** The ids of the first `n` rows of `xs`. */
  ghost function IdsUpTo(xs: seq<HistoryRecord>, n: nat): set<nat>
    requires n <= |xs|
  {
    if n == 0 then {} else IdsUpTo(xs, n - 1) + {xs[n - 1].historyId}
  }

  /** An id is among the first `n` ids exactly when one of the first `n` rows carries it. */
  lemma {:induction false} IdsUpToMembers(xs: seq<HistoryRecord>, n: nat, id: nat)
    requires n <= |xs|
    ensures id in IdsUpTo(xs, n) <==> exists j :: 0 <= j < n && xs[j].historyId == id
  {
    if n > 0 {
      IdsUpToMembers(xs, n - 1, id);
    }
  }

  /** `writes` holds exactly the rewrites the chaining of entity `k` in `h0` makes that change a row's `valid_to`. */
  ghost predicate ChainWrites(h0: seq<HistoryRecord>, k: Key, writes: seq<ChainWrite>) {
    forall w :: w in writes <==> exists x :: x in h0 && x.key == k && w == WriteFor(h0, x) && w.oldTo != w.newTo
  }

  /** No row is rewritten twice. */
  predicate DistinctWrites(writes: seq<ChainWrite>) {
    forall a, b :: 0 <= a < b < |writes| ==> writes[a].historyId != writes[b].historyId
  }

  /** `writes` holds exactly the changing rewrites of the rows `xs`. */
  ghost predicate WritesOf(h0: seq<HistoryRecord>, xs: seq<HistoryRecord>, writes: seq<ChainWrite>) {
    forall w :: w in writes <==> exists x :: x in xs && w == WriteFor(h0, x) && w.oldTo != w.newTo
  }

  /** Visiting one more row extends the writes when the row changes. */
  lemma VisitStep(h0: seq<HistoryRecord>, xs: seq<HistoryRecord>, x: HistoryRecord, writes: seq<ChainWrite>)
    requires WritesOf(h0, xs, writes)
    ensures WritesOf(h0, xs + [x], if x.validTo != ChainTarget(h0, x) then writes + [WriteFor(h0, x)] else writes)
  {
    var ys := xs + [x];
    forall y | y in ys ensures y in xs || y == x {}
    forall y | y in xs ensures y in ys {}
  }

  /** Before chaining starts nothing has been replaced. */
  lemma ProgressNone(h0: seq<HistoryRecord>, goal: seq<HistoryRecord>)
    ensures Progress(h0, goal, {}) == h0
  {
  }

  /** Part-way through chaining, ids and stamps are still where they were. */
  lemma ProgressSkeleton(h0: seq<HistoryRecord>, k: Key, done: set<nat>, n: nat)
    requires HistoryIdsFresh(h0, n)
    ensures HistoryIdsFresh(Progress(h0, Rechain(h0, k), done), n)
  {
    var h := Progress(h0, Rechain(h0, k), done);
    assert forall i :: 0 <= i < |h| ==> h[i].historyId == h0[i].historyId;
  }

  /**
   * One step of the chaining loop: chaining row `h0[p]` of entity `k` to
   * target `t` (saving only when its `valid_to` differs) adds its id to the
   * chained ones.
   */
  lemma ChainStep(h0: seq<HistoryRecord>, goal: seq<HistoryRecord>, done: set<nat>, p: nat, t: Option<Timestamp>,
                  cur: seq<HistoryRecord>, after: seq<HistoryRecord>)
    requires forall i, j :: 0 <= i < j < |h0| ==> h0[i].historyId != h0[j].historyId
    requires p < |h0| == |goal| && h0[p].historyId !in done
    requires goal[p] == h0[p].(validTo := t)
    requires forall i :: 0 <= i < |goal| ==> goal[i].historyId == h0[i].historyId
    requires cur == Progress(h0, goal, done)
    requires after == if h0[p].validTo != t then SetValidTo(cur, h0[p].historyId, t) else cur
    ensures after == Progress(h0, goal, done + {h0[p].historyId})
  {
    var next := Progress(h0, goal, done + {h0[p].historyId});
    forall q | 0 <= q < |h0| ensures after[q] == next[q] {
      if q != p {
        assert h0[q].historyId != h0[p].historyId;
        assert after[q] == cur[q];
      }
    }
  }

  /** The chaining step for sibling `r` of entity `k`, whose target is `t`. */
  lemma ChainStepFor(h0: seq<HistoryRecord>, k: Key, done: set<nat>, r: HistoryRecord, t: Option<Timestamp>,
                     cur: seq<HistoryRecord>, after: seq<HistoryRecord>)
    requires forall i, j :: 0 <= i < j < |h0| ==> h0[i].historyId != h0[j].historyId
    requires r in h0 && r.key == k && r.historyId !in done
    requires t == ChainTarget(h0, r)
    requires cur == Progress(h0, Rechain(h0, k), done)
    requires after == if r.validTo != t then SetValidTo(cur, r.historyId, t) else cur
    ensures after == Progress(h0, Rechain(h0, k), done + {r.historyId})
  {
    var p :| 0 <= p < |h0| && h0[p] == r;
    var goal := Rechain(h0, k);
    assert goal[p] == r.(validTo := t);
    assert forall i :: 0 <= i < |h0| ==> goal[i].historyId == h0[i].historyId;
    ChainStep(h0, goal, done, p, t, cur, after);
  }

  /**
   * In the sorted sibling list the chaining target of element `i` is the
   * start of element `i + 1`, and null for the last element; elements before
   * `i` carry other ids.
   */
  lemma SortedTarget(h0: seq<HistoryRecord>, k: Key, sorted: seq<HistoryRecord>, i: nat)
    requires forall p, q :: 0 <= p < q < |h0| ==> h0[p].historyId != h0[q].historyId
    requires multiset(sorted) == multiset(Siblings(h0, k))
    requires StrictlySorted(sorted, HistoryStamp)
    requires i < |sorted|
    ensures sorted[i] in h0 && sorted[i].key == k
    ensures ChainTarget(h0, sorted[i]) == if i + 1 < |sorted| then Some(sorted[i + 1].validFrom) else None
    ensures forall j :: 0 <= j < i ==> sorted[j].historyId != sorted[i].historyId
  {
    assert sorted[i] in multiset(Siblings(h0, k));
    var ss := Stamps(sorted, HistoryStamp);
    StampsOfPermutation(sorted, Siblings(h0, k), HistoryStamp);
    SortedNext(ss, i);
    NextStartSameMembers(ss, KeyStamps(h0, k), ss[i]);
    forall j | 0 <= j < i ensures sorted[j].historyId != sorted[i].historyId {
      assert sorted[j] in multiset(Siblings(h0, k));
      assert Before(HistoryStamp(sorted[j]), HistoryStamp(sorted[i]));
      var a :| 0 <= a < |h0| && h0[a] == sorted[j];
      var b :| 0 <= b < |h0| && h0[b] == sorted[i];
      if a < b || b < a {
      }
    }
  }

  /**
   * `on_history_saved__chain_valid_to` for entity `k`: walks the entity's
   * rows in `(valid_from, history_id)` order, gives each the start of the
   * next as its `valid_to` (the last gets null) and saves only the rows
   * whose `valid_to` changes. The writes made are returned.
   */
  method ChainValidTo(st: Store, k: Key) returns (writes: seq<ChainWrite>)
    requires st.Valid()
    modifies st`history
    ensures st.Valid()
    ensures st.history == Rechain(old(st.history), k)
    ensures ChainWrites(old(st.history), k, writes)
    ensures DistinctWrites(writes)
    ensures |writes| == 0 <==> ChainedFor(old(st.history), k)
  {
    var h;
    h, writes := ChainEntity(st.history, k, st.nextHistoryId);
    st.history := h;
  }

  /** The work of `ChainValidTo` on the history table as a value. */
  method ChainEntity(h0: seq<HistoryRecord>, k: Key, n: nat) returns (h: seq<HistoryRecord>, writes: seq<ChainWrite>)
    requires HistoryIdsFresh(h0, n)
    ensures h == Rechain(h0, k) && HistoryIdsFresh(h, n)
    ensures ChainWrites(h0, k, writes)
    ensures DistinctWrites(writes)
    ensures |writes| == 0 <==> ChainedFor(h0, k)
  {
    var sorted := SortBy(Siblings(h0, k), HistoryStamp);
    SiblingsDistinct(h0, k);
    h, writes := ChainSorted(h0, k, sorted);
    ChainFinish(h0, k, sorted, IdsUpTo(sorted, |sorted|), writes, n);
  }

  /**
   * The loop of `on_history_saved__chain_valid_to` over the entity's rows
   * `sorted` in stamp order: each row gets the next row's start, the last
   * null, and only changing rows are written.
   */
  method ChainSorted(h0: seq<HistoryRecord>, k: Key, sorted: seq<HistoryRecord>)
    returns (h: seq<HistoryRecord>, writes: seq<ChainWrite>)
    requires forall p, q :: 0 <= p < q < |h0| ==> h0[p].historyId != h0[q].historyId
    requires multiset(sorted) == multiset(Siblings(h0, k))
    requires StrictlySorted(sorted, HistoryStamp)
    ensures h == Progress(h0, Rechain(h0, k), IdsUpTo(sorted, |sorted|))
    ensures WritesOf(h0, sorted, writes)
    ensures DistinctWrites(writes)
  {
    h := h0;
    writes := [];
    ghost var done: set<nat> := {};
    ProgressNone(h0, Rechain(h0, k));
    var i := 0;
    while i < |sorted|
      invariant 0 <= i <= |sorted|
      invariant done == IdsUpTo(sorted, i)
      invariant h == Progress(h0, Rechain(h0, k), done)
      invariant WritesOf(h0, sorted[..i], writes)
      invariant DistinctWrites(writes) && forall w :: w in writes ==> w.historyId in done
    {
      var r := sorted[i];
      var t := if i + 1 < |sorted| then Some(sorted[i + 1].validFrom) else None;
      ghost var cur, before := h, writes;
      if r.validTo != t {
        h := SetValidTo(h, r.historyId, t);
        writes := writes + [ChainWrite(r.historyId, r.validTo, t)];
      }
      ChainLoopStep(h0, k, sorted, i, done, before, cur, h, writes);
      done := done + {r.historyId};
      i := i + 1;
    }
    assert sorted[..i] == sorted;
  }

  /** One iteration of the chaining loop keeps its invariants. */
  lemma ChainLoopStep(h0: seq<HistoryRecord>, k: Key, sorted: seq<HistoryRecord>, i: nat, done: set<nat>,
                      writes: seq<ChainWrite>, cur: seq<HistoryRecord>, after: seq<HistoryRecord>,
                      writesAfter: seq<ChainWrite>)
    requires forall p, q :: 0 <= p < q < |h0| ==> h0[p].historyId != h0[q].historyId
    requires multiset(sorted) == multiset(Siblings(h0, k))
    requires StrictlySorted(sorted, HistoryStamp)
    requires i < |sorted|
    requires done == IdsUpTo(sorted, i)
    requires cur == Progress(h0, Rechain(h0, k), done)
    requires WritesOf(h0, sorted[..i], writes)
    requires DistinctWrites(writes) && forall w :: w in writes ==> w.historyId in done
    requires var r, t := sorted[i], if i + 1 < |sorted| then Some(sorted[i + 1].validFrom) else None;
      && after == (if r.validTo != t then SetValidTo(cur, r.historyId, t) else cur)
      && writesAfter == (if r.validTo != t then writes + [ChainWrite(r.historyId, r.validTo, t)] else writes)
    ensures after == Progress(h0, Rechain(h0, k), done + {sorted[i].historyId})
    ensures IdsUpTo(sorted, i + 1) == done + {sorted[i].historyId}
    ensures WritesOf(h0, sorted[..i + 1], writesAfter)
    ensures DistinctWrites(writesAfter) && forall w :: w in writesAfter ==> w.historyId in done + {sorted[i].historyId}
  {
    var r, t := sorted[i], if i + 1 < |sorted| then Some(sorted[i + 1].validFrom) else None;
    SortedTarget(h0, k, sorted, i);
    IdsUpToMembers(sorted, i, r.historyId);
    ChainStepFor(h0, k, done, r, t, cur, after);
    VisitStep(h0, sorted[..i], r, writes);
    TakeOneMore(sorted, i);
    assert r.historyId !in done;
    WritesStayDistinct(writes, done, ChainWrite(r.historyId, r.validTo, t));
  }

  /** A rewrite of a row not yet visited keeps the rewrites distinct. */
  lemma WritesStayDistinct(writes: seq<ChainWrite>, done: set<nat>, w: ChainWrite)
    requires DistinctWrites(writes) && forall v :: v in writes ==> v.historyId in done
    requires w.historyId !in done
    ensures DistinctWrites(writes + [w]) && forall v :: v in writes + [w] ==> v.historyId in done + {w.historyId}
  {
  }

  /** What the chaining loop's invariants give once every sibling has been visited. */
  lemma ChainFinish(h0: seq<HistoryRecord>, k: Key, sorted: seq<HistoryRecord>, done: set<nat>,
                    writes: seq<ChainWrite>, n: nat)
    requires HistoryIdsFresh(h0, n)
    requires multiset(sorted) == multiset(Siblings(h0, k))
    requires done == IdsUpTo(sorted, |sorted|)
    requires WritesOf(h0, sorted, writes)
    ensures Progress(h0, Rechain(h0, k), done) == Rechain(h0, k)
    ensures HistoryIdsFresh(Rechain(h0, k), n)
    ensures ChainWrites(h0, k, writes)
    ensures |writes| == 0 <==> ChainedFor(h0, k)
  {
    assert forall x :: x in sorted <==> x in h0 && x.key == k by {
      forall x ensures x in sorted <==> x in h0 && x.key == k {
        assert x in sorted <==> x in multiset(sorted);
      }
    }
    ChainedAll(h0, k, sorted, done);
    WritesAll(h0, k, sorted, writes);
    ProgressSkeleton(h0, k, done, n);
  }

  /** The chaining loop's state once every sibling has been visited. */
  lemma ChainedAll(h0: seq<HistoryRecord>, k: Key, sorted: seq<HistoryRecord>, done: set<nat>)
    requires forall x :: x in sorted <==> x in h0 && x.key == k
    requires done == IdsUpTo(sorted, |sorted|)
    ensures Progress(h0, Rechain(h0, k), done) == Rechain(h0, k)
  {
    forall q | 0 <= q < |h0| && h0[q].key == k ensures h0[q].historyId in done {
      var j :| 0 <= j < |sorted| && sorted[j] == h0[q];
      IdsUpToMembers(sorted, |sorted|, h0[q].historyId);
    }
  }

  /** The writes the chaining loop made, once every sibling has been visited. */
  lemma WritesAll(h0: seq<HistoryRecord>, k: Key, sorted: seq<HistoryRecord>, writes: seq<ChainWrite>)
    requires forall x :: x in sorted <==> x in h0 && x.key == k
    requires WritesOf(h0, sorted, writes)
    ensures ChainWrites(h0, k, writes)
    ensures |writes| == 0 <==> ChainedFor(h0, k)
  {
    if |writes| == 0 {
      forall q | 0 <= q < |h0| && h0[q].key == k ensures h0[q].validTo == ChainTarget(h0, h0[q]) {
        assert h0[q] in sorted;
        assert WriteFor(h0, h0[q]) !in writes;
      }
    } else {
      assert writes[0] in writes;
    }
  }

  // ---------------------------------------------------------------------------
  // Strict chaining of sys_to
  // ---------------------------------------------------------------------------

  /** The meta table with the row whose id is `id` given `sys_to` `v`. */
  function SetSysTo(m: seq<MetaRecord>, id: nat, v: Option<Timestamp>): seq<MetaRecord> {
    seq(|m|, i requires 0 <= i < |m| => if m[i].metaId == id then m[i].(sysTo := v) else m[i])
  }

  /** `m0` with the rows whose ids are in `done` replaced by their version in `goal`. */
  ghost function MetaProgress(m0: seq<MetaRecord>, goal: seq<MetaRecord>, done: set<nat>): seq<MetaRecord> {
    seq(|m0|, i requires 0 <= i < |m0| => if m0[i].metaId in done && i < |goal| then goal[i] else m0[i])
  }

  /** The ids of the first `n` meta rows of `xs`. */
  ghost function MetaIdsUpTo(xs: seq<MetaRecord>, n: nat): set<nat>
    requires n <= |xs|
  {
    if n == 0 then {} else MetaIdsUpTo(xs, n - 1) + {xs[n - 1].metaId}
  }

  lemma {:induction false} MetaIdsUpToMembers(xs: seq<MetaRecord>, n: nat, id: nat)
    requires n <= |xs|
    ensures id in MetaIdsUpTo(xs, n) <==> exists j :: 0 <= j < n && xs[j].metaId == id
  {
    if n > 0 {
      MetaIdsUpToMembers(xs, n - 1, id);
    }
  }

  /** `saved` holds exactly the ids of the rows among `xs` whose `sys_to` changes. */
  ghost predicate SavesOf(m0: seq<MetaRecord>, xs: seq<MetaRecord>, saved: seq<nat>) {
    forall id :: id in saved <==> exists x :: x in xs && x.metaId == id && x.sysTo != SysTarget(m0, x)
  }

  /** Visiting one more version records its id when its `sys_to` changes. */
  lemma SaveStep(m0: seq<MetaRecord>, xs: seq<MetaRecord>, x: MetaRecord, saved: seq<nat>)
    requires SavesOf(m0, xs, saved)
    ensures SavesOf(m0, xs + [x], if x.sysTo != SysTarget(m0, x) then saved + [x.metaId] else saved)
  {
    var ys := xs + [x];
    forall y | y in ys ensures y in xs || y == x {}
    forall y | y in xs ensures y in ys {}
  }

  lemma MetaProgressNone(m0: seq<MetaRecord>, goal: seq<MetaRecord>)
    ensures MetaProgress(m0, goal, {}) == m0
  {
  }

  /** Part-way through chaining, ids, stamps and task names are still where they were. */
  lemma MetaProgressSkeleton(m0: seq<MetaRecord>, ref: Option<nat>, done: set<nat>, n: nat)
    requires MetaIdsFresh(m0, n) && TaskNamesUnique(m0)
    ensures MetaIdsFresh(MetaProgress(m0, RechainMeta(m0, ref), done), n)
    ensures TaskNamesUnique(MetaProgress(m0, RechainMeta(m0, ref), done))
  {
    var m := MetaProgress(m0, RechainMeta(m0, ref), done);
    assert forall i :: 0 <= i < |m| ==> m[i].metaId == m0[i].metaId && m[i].taskName == m0[i].taskName;
  }

  lemma MetaChainStep(m0: seq<MetaRecord>, goal: seq<MetaRecord>, done: set<nat>, p: nat, t: Option<Timestamp>,
                      cur: seq<MetaRecord>, after: seq<MetaRecord>)
    requires forall i, j :: 0 <= i < j < |m0| ==> m0[i].metaId != m0[j].metaId
    requires p < |m0| == |goal| && m0[p].metaId !in done
    requires goal[p] == m0[p].(sysTo := t)
    requires forall i :: 0 <= i < |goal| ==> goal[i].metaId == m0[i].metaId
    requires cur == MetaProgress(m0, goal, done)
    requires after == if m0[p].sysTo != t then SetSysTo(cur, m0[p].metaId, t) else cur
    ensures after == MetaProgress(m0, goal, done + {m0[p].metaId})
  {
    var next := MetaProgress(m0, goal, done + {m0[p].metaId});
    forall q | 0 <= q < |m0| ensures after[q] == next[q] {
      if q != p {
        assert m0[q].metaId != m0[p].metaId;
        assert after[q] == cur[q];
      }
    }
  }

  /** The `sys_to` chaining step for version `r` of history row `ref`, whose target is `t`. */
  lemma MetaChainStepFor(m0: seq<MetaRecord>, ref: Option<nat>, done: set<nat>, r: MetaRecord, t: Option<Timestamp>,
                         cur: seq<MetaRecord>, after: seq<MetaRecord>)
    requires forall i, j :: 0 <= i < j < |m0| ==> m0[i].metaId != m0[j].metaId
    requires r in m0 && r.historyRef == ref && r.metaId !in done
    requires t == SysTarget(m0, r)
    requires cur == MetaProgress(m0, RechainMeta(m0, ref), done)
    requires after == if r.sysTo != t then SetSysTo(cur, r.metaId, t) else cur
    ensures after == MetaProgress(m0, RechainMeta(m0, ref), done + {r.metaId})
  {
    var p :| 0 <= p < |m0| && m0[p] == r;
    var goal := RechainMeta(m0, ref);
    assert goal[p] == r.(sysTo := t);
    assert forall i :: 0 <= i < |m0| ==> goal[i].metaId == m0[i].metaId;
    MetaChainStep(m0, goal, done, p, t, cur, after);
  }

  /** In the sorted list of versions the `sys_to` target of element `i` is the start of element `i + 1`. */
  lemma MetaSortedTarget(m0: seq<MetaRecord>, ref: Option<nat>, sorted: seq<MetaRecord>, i: nat)
    requires forall p, q :: 0 <= p < q < |m0| ==> m0[p].metaId != m0[q].metaId
    requires multiset(sorted) == multiset(MetaSiblings(m0, ref))
    requires StrictlySorted(sorted, MetaStamp)
    requires i < |sorted|
    ensures sorted[i] in m0 && sorted[i].historyRef == ref
    ensures SysTarget(m0, sorted[i]) == if i + 1 < |sorted| then Some(sorted[i + 1].sysFrom) else None
    ensures forall j :: 0 <= j < i ==> sorted[j].metaId != sorted[i].metaId
  {
    assert sorted[i] in multiset(MetaSiblings(m0, ref));
    var ss := Stamps(sorted, MetaStamp);
    StampsOfPermutation(sorted, MetaSiblings(m0, ref), MetaStamp);
    SortedNext(ss, i);
    NextStartSameMembers(ss, RefStamps(m0, ref), ss[i]);
    forall j | 0 <= j < i ensures sorted[j].metaId != sorted[i].metaId {
      assert sorted[j] in multiset(MetaSiblings(m0, ref));
      assert Before(MetaStamp(sorted[j]), MetaStamp(sorted[i]));
      var a :| 0 <= a < |m0| && m0[a] == sorted[j];
      var b :| 0 <= b < |m0| && m0[b] == sorted[i];
      if a < b || b < a {
      }
    }
  }

  /**
   * `on_meta_saved__chain_sys_to` for the versions of history row `ref`:
   * walks them in `(sys_from, id)` order, gives each the start of the next
   * as its `sys_to` (the last gets null) and saves only the rows whose
   * `sys_to` changes; the ids of the saved rows are returned.
   */
  method ChainSysTo(st: Store, ref: Option<nat>) returns (saved: seq<nat>)
    requires st.Valid()
    modifies st`meta
    ensures st.Valid()
    ensures st.meta == RechainMeta(old(st.meta), ref)
    ensures forall id :: id in saved <==>
      exists x :: x in old(st.meta) && x.historyRef == ref && x.metaId == id && x.sysTo != SysTarget(old(st.meta), x)
    ensures |saved| == 0 <==> MetaChainedFor(old(st.meta), ref)
  {
    var m;
    m, saved := ChainVersions(st.meta, ref, st.nextMetaId);
    st.meta := m;
  }

  /** The work of `ChainSysTo` on the meta table as a value. */
  method ChainVersions(m0: seq<MetaRecord>, ref: Option<nat>, n: nat) returns (m: seq<MetaRecord>, saved: seq<nat>)
    requires MetaIdsFresh(m0, n) && TaskNamesUnique(m0)
    ensures m == RechainMeta(m0, ref) && MetaIdsFresh(m, n) && TaskNamesUnique(m)
    ensures forall id :: id in saved <==>
      exists x :: x in m0 && x.historyRef == ref && x.metaId == id && x.sysTo != SysTarget(m0, x)
    ensures |saved| == 0 <==> MetaChainedFor(m0, ref)
  {
    var sorted := SortBy(MetaSiblings(m0, ref), MetaStamp);
    MetaSiblingsDistinct(m0, ref);
    m, saved := ChainMetaSorted(m0, ref, sorted);
    MetaChainFinish(m0, ref, sorted, MetaIdsUpTo(sorted, |sorted|), saved, n);
  }

  /** The loop of `on_meta_saved__chain_sys_to` over the versions `sorted` in stamp order. */
  method ChainMetaSorted(m0: seq<MetaRecord>, ref: Option<nat>, sorted: seq<MetaRecord>)
    returns (m: seq<MetaRecord>, saved: seq<nat>)
    requires forall p, q :: 0 <= p < q < |m0| ==> m0[p].metaId != m0[q].metaId
    requires multiset(sorted) == multiset(MetaSiblings(m0, ref))
    requires StrictlySorted(sorted, MetaStamp)
    ensures m == MetaProgress(m0, RechainMeta(m0, ref), MetaIdsUpTo(sorted, |sorted|))
    ensures SavesOf(m0, sorted, saved)
  {
    m := m0;
    saved := [];
    ghost var done: set<nat> := {};
    MetaProgressNone(m0, RechainMeta(m0, ref));
    var i := 0;
    while i < |sorted|
      invariant 0 <= i <= |sorted|
      invariant done == MetaIdsUpTo(sorted, i)
      invariant m == MetaProgress(m0, RechainMeta(m0, ref), done)
      invariant SavesOf(m0, sorted[..i], saved)
    {
      var r := sorted[i];
      var t := if i + 1 < |sorted| then Some(sorted[i + 1].sysFrom) else None;
      ghost var cur, before := m, saved;
      if r.sysTo != t {
        m := SetSysTo(m, r.metaId, t);
        saved := saved + [r.metaId];
      }
      MetaChainLoopStep(m0, ref, sorted, i, done, before, cur, m, saved);
      done := done + {r.metaId};
      i := i + 1;
    }
    assert sorted[..i] == sorted;
  }

  lemma MetaChainLoopStep(m0: seq<MetaRecord>, ref: Option<nat>, sorted: seq<MetaRecord>, i: nat, done: set<nat>,
                          saved: seq<nat>, cur: seq<MetaRecord>, after: seq<MetaRecord>, savedAfter: seq<nat>)
    requires forall p, q :: 0 <= p < q < |m0| ==> m0[p].metaId != m0[q].metaId
    requires multiset(sorted) == multiset(MetaSiblings(m0, ref))
    requires StrictlySorted(sorted, MetaStamp)
    requires i < |sorted|
    requires done == MetaIdsUpTo(sorted, i)
    requires cur == MetaProgress(m0, RechainMeta(m0, ref), done)
    requires SavesOf(m0, sorted[..i], saved)
    requires var r, t := sorted[i], if i + 1 < |sorted| then Some(sorted[i + 1].sysFrom) else None;
      && after == (if r.sysTo != t then SetSysTo(cur, r.metaId, t) else cur)
      && savedAfter == (if r.sysTo != t then saved + [r.metaId] else saved)
    ensures after == MetaProgress(m0, RechainMeta(m0, ref), done + {sorted[i].metaId})
    ensures MetaIdsUpTo(sorted, i + 1) == done + {sorted[i].metaId}
    ensures SavesOf(m0, sorted[..i + 1], savedAfter)
  {
    var r, t := sorted[i], if i + 1 < |sorted| then Some(sorted[i + 1].sysFrom) else None;
    MetaSortedTarget(m0, ref, sorted, i);
    MetaIdsUpToMembers(sorted, i, r.metaId);
    MetaChainStepFor(m0, ref, done, r, t, cur, after);
    SaveStep(m0, sorted[..i], r, saved);
    TakeOneMore(sorted, i);
  }

  /** What the `sys_to` loop's invariants give once every version has been visited. */
  lemma MetaChainFinish(m0: seq<MetaRecord>, ref: Option<nat>, sorted: seq<MetaRecord>, done: set<nat>,
                        saved: seq<nat>, n: nat)
    requires MetaIdsFresh(m0, n) && TaskNamesUnique(m0)
    requires multiset(sorted) == multiset(MetaSiblings(m0, ref))
    requires done == MetaIdsUpTo(sorted, |sorted|)
    requires SavesOf(m0, sorted, saved)
    ensures MetaProgress(m0, RechainMeta(m0, ref), done) == RechainMeta(m0, ref)
    ensures MetaIdsFresh(RechainMeta(m0, ref), n) && TaskNamesUnique(RechainMeta(m0, ref))
    ensures forall id :: id in saved <==>
      exists x :: x in m0 && x.historyRef == ref && x.metaId == id && x.sysTo != SysTarget(m0, x)
    ensures |saved| == 0 <==> MetaChainedFor(m0, ref)
  {
    assert forall x :: x in sorted <==> x in m0 && x.historyRef == ref by {
      forall x ensures x in sorted <==> x in m0 && x.historyRef == ref {
        assert x in sorted <==> x in multiset(sorted);
      }
    }
    MetaChainedAll(m0, ref, sorted, done);
    SavesAll(m0, ref, sorted, saved);
    MetaProgressSkeleton(m0, ref, done, n);
  }

  lemma MetaChainedAll(m0: seq<MetaRecord>, ref: Option<nat>, sorted: seq<MetaRecord>, done: set<nat>)
    requires forall x :: x in sorted <==> x in m0 && x.historyRef == ref
    requires done == MetaIdsUpTo(sorted, |sorted|)
    ensures MetaProgress(m0, RechainMeta(m0, ref), done) == RechainMeta(m0, ref)
  {
    forall q | 0 <= q < |m0| && m0[q].historyRef == ref ensures m0[q].metaId in done {
      var j :| 0 <= j < |sorted| && sorted[j] == m0[q];
      MetaIdsUpToMembers(sorted, |sorted|, m0[q].metaId);
    }
  }

  lemma SavesAll(m0: seq<MetaRecord>, ref: Option<nat>, sorted: seq<MetaRecord>, saved: seq<nat>)
    requires forall x :: x in sorted <==> x in m0 && x.historyRef == ref
    requires SavesOf(m0, sorted, saved)
    ensures forall id :: id in saved <==>
      exists x :: x in m0 && x.historyRef == ref && x.metaId == id && x.sysTo != SysTarget(m0, x)
    ensures |saved| == 0 <==> MetaChainedFor(m0, ref)
  {
    if |saved| == 0 {
      forall q | 0 <= q < |m0| && m0[q].historyRef == ref ensures m0[q].sysTo == SysTarget(m0, m0[q]) {
        assert m0[q] in sorted;
        assert m0[q].metaId !in saved;
      }
    } else {
      assert saved[0] in saved;
    }
  }

  // ---------------------------------------------------------------------------
  // Schedule bookkeeping
  // ---------------------------------------------------------------------------

  /** The time after `now` beyond which a version's activation is scheduled. */
  const ActivationGrace: int := 5 * Second

  /** Activation is scheduled only for versions starting more than the grace after `now`. */
  predicate NeedsActivation(validFrom: Timestamp, now: Timestamp) {
    validFrom > now + ActivationGrace
  }

  /** A meta row whose scheduled activation is cancelled when history row `hid` is deleted. */
  predicate Cancels(x: MetaRecord, hid: nat) {
    x.historyRef == Some(hid) && x.taskStatus == Scheduled
  }

  /**
   * `on_history_pre_delete__cancel_schedules`: every scheduled version of
   * history row `hid` becomes cancelled; every other row is untouched. The
   * non-empty task names of the cancelled rows are returned: those are the
   * periodic tasks the handler revokes.
   */
  method CancelSchedules(st: Store, hid: nat) returns (revoked: seq<string>)
    requires st.Valid()
    modifies st`meta
    ensures st.Valid()
    ensures |st.meta| == |old(st.meta)|
    ensures forall i :: 0 <= i < |st.meta| ==>
      st.meta[i] == if Cancels(old(st.meta)[i], hid) then old(st.meta)[i].(taskStatus := Cancelled) else old(st.meta)[i]
    ensures forall i :: 0 <= i < |st.meta| && st.meta[i].historyRef == Some(hid) ==> st.meta[i].taskStatus != Scheduled
    ensures forall nm :: nm in revoked <==>
      exists i :: 0 <= i < |old(st.meta)| && Cancels(old(st.meta)[i], hid) && old(st.meta)[i].taskName == Some(nm) && nm != ""
  {
    var m := st.meta;
    revoked := [];
    var i := 0;
    while i < |m|
      invariant 0 <= i <= |m| && |m| == |st.meta|
      invariant forall j :: 0 <= j < |m| ==>
        m[j] == if j < i && Cancels(st.meta[j], hid) then st.meta[j].(taskStatus := Cancelled) else st.meta[j]
      invariant forall nm :: nm in revoked <==>
        exists j :: 0 <= j < i && Cancels(st.meta[j], hid) && st.meta[j].taskName == Some(nm) && nm != ""
    {
      if m[i].historyRef == Some(hid) && m[i].taskStatus == Scheduled {
        if m[i].taskName.Some? && m[i].taskName.value != "" {
          revoked := revoked + [m[i].taskName.value];
        }
        m := m[i := m[i].(taskStatus := Cancelled)];
      }
      i := i + 1;
    }
    assert forall j :: 0 <= j < |m| ==> m[j].metaId == st.meta[j].metaId && m[j].taskName == st.meta[j].taskName;
    st.meta := m;
  }

  /** Some meta row other than row `i` already carries task name `name`. */
  predicate NameTaken(m: seq<MetaRecord>, i: int, name: string) {
    exists j :: 0 <= j < |m| && j != i && m[j].taskName == Some(name)
  }

  /**
   * `_schedule_future_activation`, bookkeeping only: meta row `i` becomes
   * scheduled under task name `name`. Task names are unique, so when another
   * row already holds the name the save fails and nothing changes.
   */
  method ScheduleFutureActivation(st: Store, i: nat, name: string) returns (ok: bool)
    requires st.Valid()
    requires i < |st.meta|
    modifies st`meta
    ensures st.Valid()
    ensures ok <==> !NameTaken(old(st.meta), i, name)
    ensures ok ==> st.meta == old(st.meta)[i := old(st.meta)[i].(taskStatus := Scheduled, taskName := Some(name))]
    ensures !ok ==> st.meta == old(st.meta)
  {
    ok := true;
    var j := 0;
    while j < |st.meta|
      invariant 0 <= j <= |st.meta|
      invariant ok <==> !exists q :: 0 <= q < j && q != i && st.meta[q].taskName == Some(name)
    {
      if j != i && st.meta[j].taskName == Some(name) {
        ok := false;
      }
      j := j + 1;
    }
    if ok {
      ghost var m0 := st.meta;
      st.meta := st.meta[i := st.meta[i].(taskStatus := Scheduled, taskName := Some(name))];
      assert forall q :: 0 <= q < |m0| ==> st.meta[q].metaId == m0[q].metaId;
      assert forall q :: 0 <= q < |m0| && q != i ==> st.meta[q].taskName == m0[q].taskName;
    }
  }

  /** The meta table after the initial `+` version of history row `hist` is appended with id `id`. */
  function WithInitialMeta(m: seq<MetaRecord>, hist: HistoryRecord, id: nat, now: Timestamp): seq<MetaRecord> {
    m + [MetaRecord(id, Some(hist.historyId), now, None, Created, "", hist, None, NoTask)]
  }

  /**
   * `on_history_saved__create_meta`: takes the latest version of history row
   * `hist`, creating a `+` version first when it has none, and schedules
   * that version's activation under `name` when `hist` starts more than the
   * grace after `now`. Returns the version's position and whether it was
   * created and scheduled.
   */
  method OnHistorySavedCreateMeta(st: Store, hist: HistoryRecord, now: Timestamp, name: string)
    returns (idx: nat, created: bool, scheduled: bool)
    requires st.Valid()
    modifies st`meta, st`nextMetaId
    ensures st.Valid()
    ensures created <==> forall j :: 0 <= j < |old(st.meta)| ==> old(st.meta)[j].historyRef != Some(hist.historyId)
    ensures created ==> st.nextMetaId == old(st.nextMetaId) + 1
    ensures !created ==> st.nextMetaId == old(st.nextMetaId)
    ensures var mid := if created then WithInitialMeta(old(st.meta), hist, old(st.nextMetaId), now) else old(st.meta);
      && IsLatest(mid, Some(hist.historyId), idx)
      && (scheduled <==> NeedsActivation(hist.validFrom, now) && !NameTaken(mid, idx, name))
      && st.meta == if scheduled then mid[idx := mid[idx].(taskStatus := Scheduled, taskName := Some(name))] else mid
  {
    var ref := Some(hist.historyId);
    var latest := LatestMeta(st.meta, ref);
    if latest.None? {
      var metaId, pos, inPlace := CreateMetaHistoricalRecord(st, hist, Created, false, None, "", now);
      idx := |st.meta| - 1;
      created := true;
      ghost var m := st.meta;
      forall j | 0 <= j < |m| && m[j].historyRef == ref ensures AtMost(MetaStamp(m[j]), MetaStamp(m[idx])) {
        assert j == idx;
      }
    } else {
      idx := latest.value;
      created := false;
    }
    scheduled := false;
    if NeedsActivation(hist.validFrom, now) {
      scheduled := ScheduleFutureActivation(st, idx, name);
    }
  }

  // ---------------------------------------------------------------------------
  // Chain repair after a delete
  // ---------------------------------------------------------------------------

  /**
   * Row `i` is a row of entity `k` with the largest `valid_from` strictly
   * below `vf` (the store does not say which one among equal starts).
   */
  ghost predicate IsPrevious(h: seq<HistoryRecord>, k: Key, vf: Timestamp, i: int) {
    && 0 <= i < |h|
    && h[i].key == k && h[i].validFrom < vf
    && forall j :: 0 <= j < |h| && h[j].key == k && h[j].validFrom < vf ==> h[j].validFrom <= h[i].validFrom
  }

  /** The position of a row of entity `k` with the largest start below `vf`, if any. */
  method FindPrevious(h: seq<HistoryRecord>, k: Key, vf: Timestamp) returns (p: Option<nat>)
    ensures p.Some? ==> IsPrevious(h, k, vf, p.value)
    ensures p.None? <==> forall j :: 0 <= j < |h| && h[j].key == k ==> vf <= h[j].validFrom
  {
    p := None;
    var i := 0;
    while i < |h|
      invariant 0 <= i <= |h|
      invariant p.Some? ==> p.value < i && h[p.value].key == k && h[p.value].validFrom < vf
      invariant p.Some? ==> forall j :: 0 <= j < i && h[j].key == k && h[j].validFrom < vf ==> h[j].validFrom <= h[p.value].validFrom
      invariant p.None? <==> forall j :: 0 <= j < i && h[j].key == k ==> vf <= h[j].validFrom
    {
      if h[i].key == k && h[i].validFrom < vf && (p.None? || h[p.value].validFrom < h[i].validFrom) {
        p := Some(i);
      }
      i := i + 1;
    }
  }

  /** The smallest start of a row of entity `k` strictly after `vf`, or `None` when there is none. */
  function NextAbove(h: seq<HistoryRecord>, k: Key, vf: Timestamp): (r: Option<Timestamp>)
    ensures r.None? <==> forall j :: 0 <= j < |h| && h[j].key == k ==> h[j].validFrom <= vf
    ensures r.Some? ==> vf < r.value && exists j :: 0 <= j < |h| && h[j].key == k && h[j].validFrom == r.value
    ensures r.Some? ==> forall j :: 0 <= j < |h| && h[j].key == k && vf < h[j].validFrom ==> r.value <= h[j].validFrom
  {
    if h == [] then None
    else
      var init, x := h[..|h| - 1], h[|h| - 1];
      var rest := NextAbove(init, k, vf);
      assert forall j :: 0 <= j < |init| ==> init[j] == h[j];
      if x.key == k && vf < x.validFrom && (rest.None? || x.validFrom < rest.value) then Some(x.validFrom)
      else rest
  }

  /** The start of the first row of entity `k` after `vf`, found by one pass over the table. */
  method FindNextStart(h: seq<HistoryRecord>, k: Key, vf: Timestamp) returns (r: Option<Timestamp>)
    ensures r == NextAbove(h, k, vf)
  {
    r := None;
    var i := 0;
    while i < |h|
      invariant 0 <= i <= |h|
      invariant r == NextAbove(h[..i], k, vf)
    {
      assert h[..i + 1][..i] == h[..i];
      if h[i].key == k && vf < h[i].validFrom && (r.None? || h[i].validFrom < r.value) {
        r := Some(h[i].validFrom);
      }
      i := i + 1;
    }
    assert h[..i] == h;
  }

  /**
   * `on_history_post_delete__repair_chain` after the deletion of a row of
   * entity `k` that started at `vf`: a row of `k` with the largest start
   * below `vf` gets as `valid_to` the smallest start above `vf`, or null when
   * there is none; without such a row nothing changes. Returns the id of the
   * row repaired.
   */
  method RepairChain(st: Store, k: Key, vf: Timestamp) returns (repaired: Option<nat>)
    requires st.Valid()
    modifies st`history
    ensures st.Valid()
    ensures repaired.None? <==> forall j :: 0 <= j < |old(st.history)| && old(st.history)[j].key == k ==> vf <= old(st.history)[j].validFrom
    ensures repaired.None? ==> st.history == old(st.history)
    ensures repaired.Some? ==> exists p :: && IsPrevious(old(st.history), k, vf, p)
                                          && repaired.value == old(st.history)[p].historyId
                                          && st.history == old(st.history)[p := old(st.history)[p].(validTo := NextAbove(old(st.history), k, vf))]
  {
    var prev := FindPrevious(st.history, k, vf);
    repaired := None;
    if prev.Some? {
      var p := prev.value;
      var next := FindNextStart(st.history, k, vf);
      ghost var h0 := st.history;
      st.history := st.history[p := st.history[p].(validTo := next)];
      assert forall j :: 0 <= j < |h0| ==> st.history[j].historyId == h0[j].historyId;
      repaired := Some(st.history[p].historyId);
    }
  }
}
