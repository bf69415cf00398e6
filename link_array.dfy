/**
 * ArrayLinkReplicator: delta replication of an array of objects by identity.
 * A rescan turns the changes of the live array since the last scan into a
 * command list (deletions, insertions, swaps) and appends it, stamped with the
 * scan version, to a log; a delta is the concatenation of the log entries an
 * observer has not seen, followed by the nested deltas of the elements.
 */
module LinkArray {
  import opened Common
  import opened Actions
  import opened LinkModel
  import opened LinkLog

  predicate DistinctBounds(d: seq<Entry>)
  {
    forall a, b :: 0 <= a < b < |d| ==> d[a].bound != d[b].bound
  }

  /**
   * The first loop of `genActionSequence3`: takes every live element out of
   * the old index, collects the positions of elements the old index did not
   * know, and builds the new index.
   */
  method IndexTarget(t: seq<Handle>, m: map<Handle, int>)
    returns (remaining: map<Handle, int>, inserts: seq<nat>, newMap: map<Handle, int>)
    requires Distinct(t)
    ensures remaining == m - Elems(t)
    ensures inserts == NewPositions(t, m.Keys, |t|)
    ensures IndexOf(newMap, t)
  {
    remaining, inserts, newMap := m, [], map[];
    for i := 0 to |t|
      invariant IndexInv(t, m, i, remaining, inserts, newMap)
    {
      IndexStep(t, m, i, remaining, inserts, newMap);
      if t[i] in remaining {
        remaining := remaining - {t[i]};
      } else {
        inserts := inserts + [i];
      }
      newMap := newMap[t[i] := i];
    }
    assert t[..|t|] == t;
    forall h | h in newMap ensures 0 <= newMap[h] < |t| && t[newMap[h]] == h {
      var j :| 0 <= j < |t| && t[j] == h;
    }
  }

  /** What `IndexTarget` holds after the first `i` elements of `t`. */
  predicate IndexInv(t: seq<Handle>, m: map<Handle, int>, i: nat,
                     remaining: map<Handle, int>, inserts: seq<nat>, newMap: map<Handle, int>)
    requires i <= |t|
  {
    && remaining == m - Elems(t[..i])
    && inserts == NewPositions(t, m.Keys, i)
    && newMap.Keys == Elems(t[..i])
    && (forall j :: 0 <= j < i ==> t[j] in newMap && newMap[t[j]] == j)
  }

  /** One iteration of `IndexTarget` keeps `IndexInv`. */
  lemma IndexStep(t: seq<Handle>, m: map<Handle, int>, i: nat,
                  remaining: map<Handle, int>, inserts: seq<nat>, newMap: map<Handle, int>)
    requires Distinct(t) && i < |t| && IndexInv(t, m, i, remaining, inserts, newMap)
    ensures IndexInv(t, m, i + 1,
                     if t[i] in remaining then remaining - {t[i]} else remaining,
                     if t[i] in remaining then inserts else inserts + [i],
                     newMap[t[i] := i])
  {
    var e := Elems(t[..i]);
    ElemsSnoc(t, i);
    assert t[i] !in e;
    assert t[i] in remaining <==> t[i] in m.Keys;
    assert NewPositions(t, m.Keys, i + 1) == inserts + (if t[i] in m.Keys then [] else [i]);
    RemainingStep(m, e, t[i], remaining);
  }

  /** The elements of the first `i + 1` entries of `t`. */
  lemma ElemsSnoc(t: seq<Handle>, i: nat)
    requires i < |t|
    ensures Elems(t[..i + 1]) == Elems(t[..i]) + {t[i]}
  {
    assert t[..i + 1] == t[..i] + [t[i]];
  }

  /** Taking one more element, not yet taken, out of the old index. */
  lemma RemainingStep(m: map<Handle, int>, e: set<Handle>, h: Handle, remaining: map<Handle, int>)
    requires remaining == m - e && h !in e
    ensures (if h in remaining then remaining - {h} else remaining) == m - (e + {h})
  {
  }

  /**
   * The positions still held by the old index once the live elements are
   * taken out, in descending order: the positions of the entries to delete.
   */
  method DeadPositions(d: seq<Entry>, remaining: map<Handle, int>, ghost m: map<Handle, int>, ghost live: set<Handle>)
    returns (dels: seq<nat>)
    requires IndexOf(m, Bounds(d)) && remaining == m - live
    ensures dels == DeadFrom(d, live, 0)
  {
    dels := [];
    var j := |d|;
    while j > 0
      invariant 0 <= j <= |d| && dels == DeadFrom(d, live, j)
    {
      j := j - 1;
      RemainingAreDead(d, m, live, j);
      if j in remaining.Values {
        dels := dels + [j];
      }
    }
  }

  /**
   * One swap of the repair loop: the entry at `i` belongs at a later position
   * `idx`; after the swap it is there, the positions before `i` stay correct,
   * no element appears twice and fewer positions are wrong.
   */
  lemma SwapStep(d: seq<Entry>, t: seq<Handle>, newMap: map<Handle, int>, i: nat)
    requires |d| == |t| && IndexOf(newMap, t) && i < |t| && DistinctBounds(d)
    requires forall j :: 0 <= j < i ==> d[j].bound == t[j]
    requires d[i].bound in newMap && newMap[d[i].bound] != i
    ensures var idx := newMap[d[i].bound];
            var d' := d[i := d[idx]][idx := d[i]];
            && i < idx < |d|
            && (forall j :: 0 <= j < i ==> d'[j].bound == t[j])
            && DistinctBounds(d')
            && (forall j :: 0 <= j < |d'| ==> d'[j] in d)
            && CountTrue(Misplaced(d', t)) < CountTrue(Misplaced(d, t))
  {
    var h := d[i].bound;
    var idx := newMap[h];
    assert t[idx] == h && t[i] != h;
    assert idx > i by {
      assert d[idx].bound != h || idx >= i;
    }
    var d' := d[i := d[idx]][idx := d[i]];
    assert DistinctBounds(d') by {
      forall a, b | 0 <= a < b < |d'| ensures d'[a].bound != d'[b].bound {
        var pa := if a == i then idx else if a == idx then i else a;
        var pb := if b == i then idx else if b == idx then i else b;
        assert d'[a] == d[pa] && d'[b] == d[pb] && pa != pb;
      }
    }
    forall j | 0 <= j < |d'| ensures d'[j] in d {
      var pj := if j == i then idx else if j == idx then i else j;
      assert d'[j] == d[pj];
    }
    var before := Misplaced(d, t);
    var after := Misplaced(d', t);
    assert before[idx] && !after[idx];
    CountDrops(before, after, idx);
  }

  /** The invariant of the swap loops once the positions before `i` are settled. */
  predicate RepairInv(d0: seq<Entry>, newMap: map<Handle, int>, t: seq<Handle>, i: nat, d: seq<Entry>, moves: seq<MovePair>)
  {
    && |d| == |t|
    && (forall j :: 0 <= j < i && j < |d| ==> d[j].bound == t[j])
    && DistinctBounds(d)
    && (forall j :: 0 <= j < |d| ==> d[j] in d0)
    && SwapAll(d0, moves) == Some(d)
    && |moves| + CountTrue(Misplaced(d, t)) <= |t|
  }

  /** One iteration of the inner swap loop keeps the invariant and lowers the misplaced count. */
  lemma RepairStep(d0: seq<Entry>, newMap: map<Handle, int>, t: seq<Handle>, i: nat, d: seq<Entry>, moves: seq<MovePair>)
    requires IndexOf(newMap, t) && i < |t| && RepairInv(d0, newMap, t, i, d, moves)
    requires d[i].bound in newMap && newMap[d[i].bound] != i
    ensures var idx := newMap[d[i].bound];
            var d' := d[i := d[idx]][idx := d[i]];
            && idx < |d|
            && RepairInv(d0, newMap, t, i, d', moves + [MovePair(i, idx)])
            && CountTrue(Misplaced(d', t)) < CountTrue(Misplaced(d, t))
  {
    var idx := newMap[d[i].bound];
    SwapStep(d, t, newMap, i);
    var d' := d[i := d[idx]][idx := d[i]];
    var moves' := moves + [MovePair(i, idx)];
    assert moves'[..|moves|] == moves;
    assert SwapAll(d0, moves') == Some(d');
    forall j | 0 <= j < |d'| ensures d'[j] in d0 {
      assert d'[j] in d;
    }
  }

  /**
   * The swap loops of `genActionSequence3`: walks the shadow and, while the
   * entry at `i` belongs elsewhere, swaps it to its position. Ends with every
   * entry at its element's live position, with at most one swap per position.
   */
  method Repair(d0: seq<Entry>, newMap: map<Handle, int>, t: seq<Handle>) returns (d: seq<Entry>, moves: seq<MovePair>)
    requires |d0| == |t| && IndexOf(newMap, t) && Distinct(Bounds(d0))
    requires forall j :: 0 <= j < |d0| ==> d0[j].bound in newMap
    ensures Bounds(d) == t
    ensures SwapAll(d0, moves) == Some(d)
    ensures |moves| <= |t|
    ensures forall j :: 0 <= j < |d| ==> d[j] in d0
  {
    d, moves := d0, [];
    assert DistinctBounds(d) by {
      forall a, b | 0 <= a < b < |d| ensures d[a].bound != d[b].bound {
        assert Bounds(d0)[a] == d[a].bound && Bounds(d0)[b] == d[b].bound;
      }
    }
    for i := 0 to |t|
      invariant RepairInv(d0, newMap, t, i, d, moves)
    {
      while true
        invariant RepairInv(d0, newMap, t, i, d, moves)
        decreases CountTrue(Misplaced(d, t))
      {
        var h := d[i].bound;
        if h in newMap && newMap[h] != i {
          var idx := newMap[h];
          RepairStep(d0, newMap, t, i, d, moves);
          moves := moves + [MovePair(i, idx)];
          d := d[i := d[idx]][idx := d[i]];
        } else {
          break;
        }
      }
      RepairSettled(d0, newMap, t, i, d, moves);
    }
    assert Bounds(d) == t;
  }

  /** When the inner loop stops, the entry at `i` is at its element's live position. */
  lemma RepairSettled(d0: seq<Entry>, newMap: map<Handle, int>, t: seq<Handle>, i: nat, d: seq<Entry>, moves: seq<MovePair>)
    requires IndexOf(newMap, t) && i < |t| && RepairInv(d0, newMap, t, i, d, moves)
    requires forall j :: 0 <= j < |d0| ==> d0[j].bound in newMap
    requires !(d[i].bound in newMap && newMap[d[i].bound] != i)
    ensures RepairInv(d0, newMap, t, i + 1, d, moves)
  {
    assert d[i].bound in newMap by {
      var j :| 0 <= j < |d0| && d0[j] == d[i];
    }
    assert d[i].bound == t[i];
  }

  /** The deletion loop: removes the listed positions one after the other. */
  method DeletePass<X>(s: seq<X>, dels: seq<nat>) returns (d: seq<X>)
    ensures d == RemoveAll(s, dels)
  {
    d := s;
    for k := 0 to |dels|
      invariant d == RemoveAll(s, dels[..k])
    {
      assert dels[..k + 1] == dels[..k] + [dels[k]];
      RemoveAllSnoc(s, dels[..k], dels[k]);
      d := RemoveAt(d, dels[k]);
    }
    assert dels[..|dels|] == dels;
  }

  /** The insertion loop: a fresh entry stamped `lv` for each listed position, in order. */
  method InsertPass(s: seq<Entry>, inserts: seq<nat>, t: seq<Handle>, lv: int) returns (d: seq<Entry>)
    requires forall k :: 0 <= k < |inserts| ==> inserts[k] < |t|
    ensures d == InsertAll(s, inserts, NewEntries(t, inserts, lv))
  {
    ghost var ne := NewEntries(t, inserts, lv);
    d := s;
    for k := 0 to |inserts|
      invariant d == InsertAll(s, inserts[..k], ne[..k])
    {
      assert inserts[..k + 1][..k] == inserts[..k] && ne[..k + 1][..k] == ne[..k];
      d := InsertAt(d, inserts[k], Entry(lv, inserts[k], t[inserts[k]]));
    }
    assert inserts[..|inserts|] == inserts && ne[..|inserts|] == ne;
  }

  /** Deleting every dead position leaves the live entries in order. */
  lemma DeadRemovedIsKeep(prev: seq<Entry>, live: set<Handle>)
    ensures RemoveAll(prev, DeadFrom(prev, live, 0)) == Keep(prev, live)
  {
    RemoveDeadIsKeep(prev, live, 0);
    assert prev[0..] == prev && prev[..0] == [];
  }

  /**
   * The shadow after the deletions and insertions of a rescan is what
   * `Repair` needs: one entry per live element, each element once, each
   * known to the new index, each entry placed as the rescan places it.
   */
  lemma InsertedReady(prev: seq<Entry>, m: map<Handle, int>, t: seq<Handle>, lv: int, newMap: map<Handle, int>)
    requires IndexOf(m, Bounds(prev)) && Distinct(t) && IndexOf(newMap, t)
    ensures var idx := NewPositions(t, m.Keys, |t|);
            var a := InsertAll(Keep(prev, Elems(t)), idx, NewEntries(t, idx, lv));
            && |a| == |t| && Distinct(Bounds(a))
            && (forall j :: 0 <= j < |a| ==> a[j].bound in newMap)
            && (forall e :: e in a ==> Placed(e, prev, m, t, lv))
  {
    var idx := NewPositions(t, m.Keys, |t|);
    var a := InsertAll(Keep(prev, Elems(t)), idx, NewEntries(t, idx, lv));
    ShadowAfterInserts(prev, m, t, lv);
    ShadowAfterInsertsPlaced(prev, m, t, lv);
    IndexOfFacts(newMap, t);
    forall j | 0 <= j < |a| ensures a[j].bound in newMap {
      assert Bounds(a)[j] in Elems(Bounds(a));
    }
  }

  /**
   * The rescan of a non-empty live array `t` against the shadow `prev` and its
   * index `m`: the command list, the new shadow and the new index.
   */
  method RescanShadow(prev: seq<Entry>, m: map<Handle, int>, t: seq<Handle>, lv: int)
    returns (acts: seq<Action>, d: seq<Entry>, newMap: map<Handle, int>, moves: seq<MovePair>)
    requires IndexOf(m, Bounds(prev)) && Distinct(t)
    ensures Bounds(d) == t && IndexOf(newMap, t)
    ensures acts == ScanActions(DeadFrom(prev, Elems(t), 0), NewPositions(t, m.Keys, |t|), moves)
    ensures |moves| <= |t|
    ensures d == Rescanned(prev, m, t, lv)
    ensures Replay(prev, acts, NewEntries(t, NewPositions(t, m.Keys, |t|), lv)) == Some(d)
  {
    ghost var live := Elems(t);
    var remaining, inserts, newMap0 := IndexTarget(t, m);
    newMap := newMap0;
    var dels := DeadPositions(prev, remaining, m, live);
    var kept := DeletePass(prev, dels);
    DeadRemovedIsKeep(prev, live);
    var inserted := InsertPass(kept, inserts, t, lv);
    InsertedReady(prev, m, t, lv, newMap);
    d, moves := Repair(inserted, newMap, t);
    acts := ScanActions(dels, inserts, moves);
    PlacedInOrder(d, inserted, prev, m, t, lv);
    ReplayScanActions(prev, dels, inserts, moves, NewEntries(t, inserts, lv));
  }

  /** The loop concatenating the commands of the log entries from `fromIndex` on. */
  method CollectActions(log: seq<LogEntry>, fromIndex: nat) returns (ret: seq<Action>)
    requires fromIndex <= |log|
    ensures ret == Flatten(log[fromIndex..])
  {
    ret := [];
    for i := fromIndex to |log|
      invariant ret == Flatten(log[fromIndex..i])
    {
      assert log[fromIndex..i + 1] == log[fromIndex..i] + [log[i]];
      FlattenSnoc(log[fromIndex..i], log[i]);
      ret := ret + log[i].actions;
    }
    assert log[fromIndex..|log|] == log[fromIndex..];
  }

  /**
   * The loop over the shadow asking each element's nested replicator for its
   * delta; `from` drops to 0 from the first element stamped after it.
   */
  method UpdatePass(d: seq<Entry>, from: int, to: int, nested: NestedGen) returns (items: seq<UpdateItem>)
    ensures items == UpdateItems(d, from, to, nested, |d|)
  {
    items := [];
    var f := from;
    for i := 0 to |d|
      invariant f == StickyFrom(d, from, i)
      invariant items == UpdateItems(d, from, to, nested, i)
    {
      if d[i].version > f {
        f := 0;
      }
      var diff := nested(d[i].bound, f, to);
      if diff.Some? {
        items := items + [UpdateItem(i, diff.value)];
      }
    }
  }

  /** An `Insert` on the mirror: a fresh object per listed position, spliced into the array and the shadow. */
  method MirrorInsert(t: seq<Handle>, d: seq<Entry>, idx: seq<nat>, lv: int, base: nat)
    returns (t': seq<Handle>, d': seq<Entry>)
    ensures d' == InsertAll(d, idx, FreshRun(idx, lv, base))
    ensures t' == InsertAll(t, idx, Bounds(FreshRun(idx, lv, base)))
  {
    t', d' := t, d;
    for j := 0 to |idx|
      invariant InsertInv(t, d, idx, lv, base, j, t', d')
    {
      InsertInvStep(t, d, idx, lv, base, j, t', d');
      t' := InsertAt(t', idx[j], base + j);
      d' := InsertAt(d', idx[j], Entry(lv, idx[j], base + j));
    }
    assert idx[..|idx|] == idx;
    assert FreshRun(idx, lv, base)[..|idx|] == FreshRun(idx, lv, base);
    assert Bounds(FreshRun(idx, lv, base))[..|idx|] == Bounds(FreshRun(idx, lv, base));
  }

  /** What `MirrorInsert` holds after the first `j` positions. */
  predicate InsertInv(t: seq<Handle>, d: seq<Entry>, idx: seq<nat>, lv: int, base: nat, j: nat, t': seq<Handle>, d': seq<Entry>)
    requires j <= |idx|
  {
    && d' == InsertAll(d, idx[..j], FreshRun(idx, lv, base)[..j])
    && t' == InsertAll(t, idx[..j], Bounds(FreshRun(idx, lv, base))[..j])
  }

  /** One iteration of `MirrorInsert` keeps `InsertInv`. */
  lemma InsertInvStep(t: seq<Handle>, d: seq<Entry>, idx: seq<nat>, lv: int, base: nat, j: nat, t': seq<Handle>, d': seq<Entry>)
    requires j < |idx| && InsertInv(t, d, idx, lv, base, j, t', d')
    ensures InsertInv(t, d, idx, lv, base, j + 1, InsertAt(t', idx[j], base + j), InsertAt(d', idx[j], Entry(lv, idx[j], base + j)))
  {
    var run := FreshRun(idx, lv, base);
    var hs := Bounds(run);
    InsertAllSnoc(d, idx, run, j);
    InsertAllSnoc(t, idx, hs, j);
    assert run[j] == Entry(lv, idx[j], base + j) && hs[j] == base + j;
  }

  /** A `Delete` on the mirror: removes each listed position from the array and the shadow. */
  method MirrorDelete(t: seq<Handle>, d: seq<Entry>, idx: seq<nat>) returns (t': seq<Handle>, d': seq<Entry>)
    ensures t' == RemoveAll(t, idx) && d' == RemoveAll(d, idx)
  {
    t', d' := t, d;
    for j := 0 to |idx|
      invariant t' == RemoveAll(t, idx[..j]) && d' == RemoveAll(d, idx[..j])
    {
      assert idx[..j + 1] == idx[..j] + [idx[j]];
      RemoveAllSnoc(t, idx[..j], idx[j]);
      RemoveAllSnoc(d, idx[..j], idx[j]);
      t' := RemoveAt(t', idx[j]);
      d' := RemoveAt(d', idx[j]);
    }
    assert idx[..|idx|] == idx;
  }

  /** A `Move` on the mirror: the pairs swapped one after another in the array and the shadow. */
  method MirrorMove(t: seq<Handle>, d: seq<Entry>, ps: seq<MovePair>) returns (ok: bool, t': seq<Handle>, d': seq<Entry>)
    ensures ok <==> SwapAll(t, ps).Some? && SwapAll(d, ps).Some?
    ensures ok ==> SwapAll(t, ps) == Some(t') && SwapAll(d, ps) == Some(d')
  {
    t', d' := t, d;
    var j := 0;
    while j < |ps|
      invariant 0 <= j <= |ps|
      invariant SwapAll(t, ps[..j]) == Some(t') && SwapAll(d, ps[..j]) == Some(d')
    {
      assert ps[..j + 1][..j] == ps[..j];
      var st := SwapAt(t', ps[j].from, ps[j].to);
      var sd := SwapAt(d', ps[j].from, ps[j].to);
      assert SwapAll(t, ps[..j + 1]) == st && SwapAll(d, ps[..j + 1]) == sd;
      if st.None? {
        SwapAllPrefixFails(t, ps, j + 1);
        return false, t', d';
      } else if sd.None? {
        SwapAllPrefixFails(d, ps, j + 1);
        return false, t', d';
      }
      t', d' := st.value, sd.value;
      j := j + 1;
    }
    assert ps[..|ps|] == ps;
    ok := true;
  }

  /** The `Update` loop on the mirror: each delta handed to the element at its position. */
  method MirrorForward(d: seq<Entry>, items: seq<UpdateItem>) returns (ok: bool, calls: seq<Call>)
    ensures ok <==> Forward(d, items).Some?
    ensures ok ==> Forward(d, items) == Some(calls)
  {
    calls := [];
    ForwardMeaning(d, items);
    for j := 0 to |items|
      invariant Forward(d, items[..j]) == Some(calls)
    {
      assert items[..j + 1][..j] == items[..j];
      if items[j].index >= |d| {
        return false, calls;
      }
      calls := calls + [Call(d[items[j].index].bound, items[j].delta)];
    }
    assert items[..|items|] == items;
    ok := true;
  }

  /**
   * The command loop of `applyDiff` on the mirror's array `t` and shadow `d`;
   * `lv` stamps the created entries and `base` is the first fresh object.
   * It succeeds exactly when the structural commands replay on both and every
   * `Update` position is in range; it then ends where the replay ends and
   * forwards every pair of the `Update` command.
   */
  method MirrorReplay(t0: seq<Handle>, d0: seq<Entry>, acts: seq<Action>, lv: int, base: nat)
    returns (ok: bool, calls: seq<Call>, t: seq<Handle>, d: seq<Entry>, n: nat)
    ensures var made := Created(acts, lv, base);
            var rd := Replay(d0, acts, made);
            var rt := Replay(t0, acts, Bounds(made));
            && (ok <==> rd.Some? && rt.Some? && Forward(rd.value, UpdatesOf(acts)).Some?)
            && (ok ==> d == rd.value && t == rt.value && Forward(d, UpdatesOf(acts)) == Some(calls))
            && (ok ==> n == base + InsertCount(acts))
  {
    t, d, n := t0, d0, base;
    calls := [];
    var i := 0;
    while i < |acts|
      invariant 0 <= i <= |acts| && ReplayInv(t0, d0, acts, lv, base, i, t, d, n)
      decreases |acts| - i
    {
      if acts[i].Update? {
        ReplayInvUpdate(t0, d0, acts, lv, base, i, t, d, n, acts[i].items);
        ok, calls := MirrorForward(d, acts[i].items);
        return ok, calls, t, d, n;
      }
      var moved;
      moved, t, d, n := MirrorCommand(t0, d0, acts, lv, base, i, t, d, n);
      if !moved {
        return false, calls, t, d, n;
      }
      i := i + 1;
    }
    ReplayInvEnd(t0, d0, acts, lv, base, t, d, n);
    ok := true;
  }

  /**
   * One structural command of `MirrorReplay` on the array and the shadow:
   * either the replay moves on to command `i + 1`, or a `Move` fails and
   * with it the whole replay.
   */
  method MirrorCommand(ghost t0: seq<Handle>, ghost d0: seq<Entry>, acts: seq<Action>, lv: int, ghost base: nat,
                       i: nat, t: seq<Handle>, d: seq<Entry>, n: nat)
    returns (moved: bool, t': seq<Handle>, d': seq<Entry>, n': nat)
    requires i < |acts| && !acts[i].Update? && ReplayInv(t0, d0, acts, lv, base, i, t, d, n)
    ensures moved ==> ReplayInv(t0, d0, acts, lv, base, i + 1, t', d', n')
    ensures !moved ==> Replay(d0, acts, Created(acts, lv, base)).None? || Replay(t0, acts, Bounds(Created(acts, lv, base))).None?
  {
    moved, n' := true, n;
    match acts[i] {
    case Insert(idx) =>
      ReplayInvInsert(t0, d0, acts, lv, base, i, t, d, n, idx);
      t', d' := MirrorInsert(t, d, idx, lv, n);
      n' := n + |idx|;
    case Delete(idx) =>
      ReplayInvPlain(t0, d0, acts, lv, base, i, t, d, n, RemoveAll(t, idx), RemoveAll(d, idx));
      t', d' := MirrorDelete(t, d, idx);
    case Move(ps) =>
      moved, t', d' := MirrorMove(t, d, ps);
      if moved {
        ReplayInvPlain(t0, d0, acts, lv, base, i, t, d, n, t', d');
      } else {
        ReplayInvMoveFails(t0, d0, acts, lv, base, i, t, d, n, ps);
      }
    case Clear =>
      ReplayInvPlain(t0, d0, acts, lv, base, i, t, d, n, [], []);
      t', d' := [], [];
    }
  }

  /** What `MirrorReplay` holds before command `i`: replaying the rest from here ends where replaying all of `acts` ends. */
  ghost predicate ReplayInv(t0: seq<Handle>, d0: seq<Entry>, acts: seq<Action>, lv: int, base: nat,
                            i: nat, t: seq<Handle>, d: seq<Entry>, n: nat)
    requires i <= |acts|
  {
    && Replay(d0, acts, Created(acts, lv, base)) == Replay(d, acts[i..], Created(acts[i..], lv, n))
    && Replay(t0, acts, Bounds(Created(acts, lv, base))) == Replay(t, acts[i..], Bounds(Created(acts[i..], lv, n)))
    && UpdatesOf(acts) == UpdatesOf(acts[i..])
    && n + InsertCount(acts[i..]) == base + InsertCount(acts)
  }

  /** `ReplayInv` over an `Insert` command: the fresh run is spliced in and `n` moves past it. */
  lemma ReplayInvInsert(t0: seq<Handle>, d0: seq<Entry>, acts: seq<Action>, lv: int, base: nat,
                        i: nat, t: seq<Handle>, d: seq<Entry>, n: nat, idx: seq<nat>)
    requires i < |acts| && acts[i] == Insert(idx) && ReplayInv(t0, d0, acts, lv, base, i, t, d, n)
    ensures ReplayInv(t0, d0, acts, lv, base, i + 1,
                      InsertAll(t, idx, Bounds(FreshRun(idx, lv, n))), InsertAll(d, idx, FreshRun(idx, lv, n)), n + |idx|)
  {
    var rest := acts[i..];
    assert rest[0] == acts[i] && rest[1..] == acts[i + 1..];
    InsertStep(rest, idx, lv, n, d, t);
  }

  /**
   * `ReplayInv` over a `Delete`, a `Move` that succeeds or a `Clear`: the
   * command replays on both sequences without creating anything.
   */
  lemma ReplayInvPlain(t0: seq<Handle>, d0: seq<Entry>, acts: seq<Action>, lv: int, base: nat,
                       i: nat, t: seq<Handle>, d: seq<Entry>, n: nat, t': seq<Handle>, d': seq<Entry>)
    requires i < |acts| && !acts[i].Insert? && !acts[i].Update? && ReplayInv(t0, d0, acts, lv, base, i, t, d, n)
    requires acts[i].Delete? ==> t' == RemoveAll(t, acts[i].indices) && d' == RemoveAll(d, acts[i].indices)
    requires acts[i].Move? ==> SwapAll(t, acts[i].pairs) == Some(t') && SwapAll(d, acts[i].pairs) == Some(d')
    requires acts[i].Clear? ==> t' == [] && d' == []
    ensures ReplayInv(t0, d0, acts, lv, base, i + 1, t', d', n)
  {
    var rest := acts[i..];
    assert rest[0] == acts[i] && rest[1..] == acts[i + 1..];
    PlainStep(rest, lv, n);
  }

  /** A `Move` that fails on either sequence makes the whole replay fail. */
  lemma ReplayInvMoveFails(t0: seq<Handle>, d0: seq<Entry>, acts: seq<Action>, lv: int, base: nat,
                           i: nat, t: seq<Handle>, d: seq<Entry>, n: nat, ps: seq<MovePair>)
    requires i < |acts| && acts[i] == Move(ps) && ReplayInv(t0, d0, acts, lv, base, i, t, d, n)
    requires SwapAll(t, ps).None? || SwapAll(d, ps).None?
    ensures Replay(d0, acts, Created(acts, lv, base)).None? || Replay(t0, acts, Bounds(Created(acts, lv, base))).None?
  {
    var rest := acts[i..];
    assert rest[0] == acts[i];
  }

  /** Reaching the `Update` command: the replay ends here and its pairs are the delta's. */
  lemma ReplayInvUpdate(t0: seq<Handle>, d0: seq<Entry>, acts: seq<Action>, lv: int, base: nat,
                        i: nat, t: seq<Handle>, d: seq<Entry>, n: nat, items: seq<UpdateItem>)
    requires i < |acts| && acts[i] == Update(items) && ReplayInv(t0, d0, acts, lv, base, i, t, d, n)
    ensures Replay(d0, acts, Created(acts, lv, base)) == Some(d)
    ensures Replay(t0, acts, Bounds(Created(acts, lv, base))) == Some(t)
    ensures UpdatesOf(acts) == items && n == base + InsertCount(acts)
  {
    var rest := acts[i..];
    assert rest[0] == acts[i];
  }

  /** Running out of commands: the replay ends here and there is nothing to forward. */
  lemma ReplayInvEnd(t0: seq<Handle>, d0: seq<Entry>, acts: seq<Action>, lv: int, base: nat,
                     t: seq<Handle>, d: seq<Entry>, n: nat)
    requires ReplayInv(t0, d0, acts, lv, base, |acts|, t, d, n)
    ensures Replay(d0, acts, Created(acts, lv, base)) == Some(d)
    ensures Replay(t0, acts, Bounds(Created(acts, lv, base))) == Some(t)
    ensures UpdatesOf(acts) == [] && n == base + InsertCount(acts)
  {
    assert acts[|acts|..] == [];
  }

  /** The constructor's loop: one entry per element, stamped with version 0, and the index of each element. */
  method FirstScan(t: seq<Handle>) returns (d: seq<Entry>, m: map<Handle, int>)
    requires Distinct(t)
    ensures |d| == |t| && forall i :: 0 <= i < |t| ==> d[i] == Entry(0, i, t[i])
    ensures Bounds(d) == t && IndexOf(m, t)
  {
    d, m := [], map[];
    for i := 0 to |t|
      invariant FirstScanInv(t, i, d, m)
    {
      FirstScanStep(t, i, d, m);
      d := d + [Entry(0, |d|, t[i])];
      m := m[t[i] := i];
    }
    assert t[..|t|] == t;
    forall h | h in m ensures 0 <= m[h] < |t| && t[m[h]] == h {
      var j :| 0 <= j < |t| && t[j] == h;
    }
  }

  /** What `FirstScan` holds after the first `i` elements. */
  predicate FirstScanInv(t: seq<Handle>, i: nat, d: seq<Entry>, m: map<Handle, int>)
    requires i <= |t|
  {
    && |d| == i
    && (forall j :: 0 <= j < i ==> d[j] == Entry(0, j, t[j]))
    && m.Keys == Elems(t[..i])
    && (forall j :: 0 <= j < i ==> t[j] in m && m[t[j]] == j)
  }

  /** One iteration of `FirstScan` keeps `FirstScanInv`. */
  lemma FirstScanStep(t: seq<Handle>, i: nat, d: seq<Entry>, m: map<Handle, int>)
    requires Distinct(t) && i < |t| && FirstScanInv(t, i, d, m)
    ensures FirstScanInv(t, i + 1, d + [Entry(0, |d|, t[i])], m[t[i] := i])
  {
    ElemsSnoc(t, i);
    var d' := d + [Entry(0, |d|, t[i])];
    assert forall j :: 0 <= j < i ==> d'[j] == d[j];
  }

  /** The invariant of `ArrayLinkReplicator`, over the values of its fields. */
  ghost predicate ValidState(data: seq<Entry>, index: map<Handle, int>, log: seq<LogEntry>, checked: int,
                             before: seq<seq<Entry>>, created: seq<seq<Entry>>)
  {
    && IndexOf(index, Bounds(data))
    && Ordered(log)
    && (forall k :: 0 <= k < |log| ==> log[k].version <= checked)
    && Chained(log, before, created, data)
  }

  /** A rescan of an empty live array: the log is the single `Clear` at `to`. */
  lemma ClearedValid(prev: seq<Entry>, to: int)
    ensures ValidState([], map[], [LogEntry(to, [Clear])], to, [prev], [[]])
  {
    ChainedClear(prev, to);
  }

  /**
   * A rescan at `to`, later than every logged version, whose commands replay
   * the old shadow `prev` to the new one `d` creating `ne`: logging them, when
   * there are any, keeps the invariant.
   */
  lemma RescannedValid(prev: seq<Entry>, log: seq<LogEntry>, checked: int, bs: seq<seq<Entry>>, cs: seq<seq<Entry>>,
                       d: seq<Entry>, m: map<Handle, int>, to: int, acts: seq<Action>, ne: seq<Entry>)
    requires Ordered(log) && (forall k :: 0 <= k < |log| ==> log[k].version <= checked) && checked < to
    requires Chained(log, bs, cs, prev) && IndexOf(m, Bounds(d))
    requires NoUpdate(acts) && |ne| == InsertCount(acts) && Replay(prev, acts, ne) == Some(d)
    ensures acts == [] ==> ValidState(d, m, log, to, bs, cs)
    ensures acts != [] ==> ValidState(d, m, log + [LogEntry(to, acts)], to, bs + [prev], cs + [ne])
  {
    if acts != [] {
      ChainedExtend(log, bs, cs, prev, d, LogEntry(to, acts), ne);
      OrderedExtend(log, LogEntry(to, acts));
      var log' := log + [LogEntry(to, acts)];
      assert forall k :: 0 <= k < |log'| ==> log'[k].version <= to by {
        forall k | 0 <= k < |log'| ensures log'[k].version <= to {
          if k < |log| {
            assert log'[k] == log[k];
          }
        }
      }
    }
  }

  class ArrayLinkReplicator {
    /** The shadow: one entry per element, in the order of the last scan. */
    var data: seq<Entry>
    /** Position of each element in the shadow. */
    var dataIndexMap: map<Handle, int>
    /** The live array, owned by the application. */
    var target: seq<Handle>
    /** The log of rescans that changed the structure, oldest first. */
    var actionSequence: seq<LogEntry>
    /** Last version at which a delta was answered. */
    var lastVersion: int
    /** Last version scanned. */
    var lastCheckVersion: int
    /** The next object the mirror default-constructs. */
    var nextObject: nat
    /** The shadow just before each log entry's rescan. */
    ghost var before: seq<seq<Entry>>
    /** The entries each log entry's rescan created, in insertion order. */
    ghost var created: seq<seq<Entry>>

    /**
     * The index maps each shadow entry's element to its position; the log is
     * ordered by version, no later than the last scan, and chained: each
     * entry's commands take the shadow from what it was before that entry to
     * what it was before the next one.
     */
    ghost predicate Valid()
      reads this
    {
      ValidState(data, dataIndexMap, actionSequence, lastCheckVersion, before, created)
    }

    /** What `debugCheck` verifies: the shadow lists the live elements in order and the index is exact. */
    ghost predicate Synced()
      reads this
    {
      Bounds(data) == target && IndexOf(dataIndexMap, target)
    }

    /** Creates one entry per element, stamped with version 0, and indexes them. */
    constructor (target: seq<Handle>, firstFresh: nat)
      requires Distinct(target)
      ensures this.target == target && Valid() && Synced()
      ensures forall i :: 0 <= i < |data| ==> data[i] == Entry(0, i, target[i])
      ensures actionSequence == [] && lastVersion == 0 && lastCheckVersion == 0 && nextObject == firstFresh
    {
      this.target := target;
      actionSequence := [];
      before, created := [], [];
      lastVersion, lastCheckVersion := 0, 0;
      nextObject := firstFresh;
      var d, m := FirstScan(target);
      data := d;
      dataIndexMap := m;
    }

    /**
     * Compares the live array with the shadow by identity and brings the
     * shadow and the index up to date. An empty live array clears everything.
     * Otherwise the commands are the descending positions of entries whose
     * element is gone, the ascending positions of new elements, and swaps; the
     * shadow after the rescan is the old shadow replayed through the commands,
     * with one new entry per inserted element stamped `lastVersion`.
     */
    method GenActionSequence3() returns (acts: seq<Action>, ghost moves: seq<MovePair>)
      requires Valid() && Distinct(target)
      modifies this
      ensures target == old(target) && actionSequence == old(actionSequence)
      ensures lastVersion == old(lastVersion) && lastCheckVersion == old(lastCheckVersion)
      ensures nextObject == old(nextObject) && before == old(before) && created == old(created)
      ensures Synced()
      ensures |target| == 0 ==> acts == [Clear] && data == []
      ensures |target| > 0 ==>
                var inserts := NewPositions(target, old(dataIndexMap).Keys, |target|);
                && acts == ScanActions(DeadFrom(old(data), Elems(target), 0), inserts, moves)
                && |moves| <= |target|
                && data == Rescanned(old(data), old(dataIndexMap), target, lastVersion)
                && Replay(old(data), acts, NewEntries(target, inserts, lastVersion)) == Some(data)
    {
      if |target| == 0 {
        dataIndexMap := map[];
        data := [];
        return [Clear], [];
      }
      var d, newMap, swaps;
      acts, d, newMap, swaps := RescanShadow(data, dataIndexMap, target, lastVersion);
      moves := swaps;
      data := d;
      dataIndexMap := newMap;
    }

    /**
     * Binary search for the first log entry whose version is at least `v`.
     * The answer lies in `[0, |actionSequence|]`; on a log ordered by version
     * it is exactly that entry's position.
     */
    method GetActionIndex(v: int) returns (r: nat)
      ensures r <= |actionSequence|
      ensures Ordered(actionSequence) ==> r == FirstAtLeast(actionSequence, v)
    {
      var log := actionSequence;
      var left, right := 0, |log| - 1;
      ghost var ordered := Ordered(log);
      while left <= right
        invariant 0 <= left <= right + 1 <= |log|
        invariant ordered ==> forall k :: 0 <= k < left ==> log[k].version < v
        invariant ordered ==> forall k :: right < k < |log| ==> log[k].version > v
        decreases right + 1 - left
      {
        var mid := (left + right) / 2;
        if log[mid].version == v {
          if ordered {
            forall k | 0 <= k < mid ensures log[k].version < v {
              assert log[k].version < log[mid].version;
            }
            forall k | mid <= k < |log| ensures log[k].version >= v {
              if k > mid {
                assert log[mid].version < log[k].version;
              }
            }
            FirstAtLeastUnique(log, v, mid);
          }
          return mid;
        } else if log[mid].version < v {
          if ordered {
            forall k | 0 <= k <= mid ensures log[k].version < v {
              if k < mid {
                assert log[k].version < log[mid].version;
              }
            }
          }
          left := mid + 1;
        } else {
          if ordered {
            forall k | mid <= k < |log| ensures log[k].version > v {
              if k > mid {
                assert log[mid].version < log[k].version;
              }
            }
          }
          right := mid - 1;
        }
      }
      if ordered {
        FirstAtLeastUnique(log, v, left);
      }
      return left;
    }

    /**
     * The rescan part of `genDiff`: runs the rescan, records the scan
     * version and logs the commands with it. A `Clear` replaces the whole log;
     * other non-empty command lists are appended.
     */
    method ScanAndLog(to: int) returns (acts: seq<Action>)
      requires Valid() && Distinct(target) && lastCheckVersion < to
      modifies this
      ensures Valid() && Synced()
      ensures lastCheckVersion == to && target == old(target)
      ensures lastVersion == old(lastVersion) && nextObject == old(nextObject)
      ensures target == [] ==> acts == [Clear] && actionSequence == [LogEntry(to, [Clear])] && data == []
      ensures target != [] ==>
                && (forall k :: 0 <= k < |acts| ==> !acts[k].Clear?)
                && data == Rescanned(old(data), old(dataIndexMap), target, lastVersion)
                && actionSequence == old(actionSequence) + (if acts == [] then [] else [LogEntry(to, acts)])
    {
      ghost var prev := data;
      ghost var m := dataIndexMap;
      ghost var log, checked, bs, cs := actionSequence, lastCheckVersion, before, created;
      ghost var moves;
      acts, moves := GenActionSequence3();
      lastCheckVersion := to;
      if target == [] {
        actionSequence := [LogEntry(to, acts)];
        before, created := [prev], [[]];
        ClearedValid(prev, to);
        return;
      }
      ghost var inserts := NewPositions(target, m.Keys, |target|);
      ghost var ne := NewEntries(target, inserts, lastVersion);
      RescannedValid(prev, log, checked, bs, cs, data, dataIndexMap, to, acts, ne);
      if acts != [] {
        actionSequence := actionSequence + [LogEntry(to, acts)];
        before, created := bs + [prev], cs + [ne];
      }
    }

    /**
     * A delta from `from` to `to`. `None` (the "no change" sentinel) when the
     * range is inverted, or when no rescan is due and the observer is ahead of
     * the last answer. A due rescan runs first; an empty live array answers
     * `[Clear]` alone. Otherwise the answer is the commands of every log entry
     * newer than `from`, then one `Update` with the nested deltas of the
     * elements whose replicator reports a change (left out when none does);
     * an empty answer is still an answer, not the sentinel, and `lastVersion`
     * moves to `to` only for a non-empty one.
     */
    method GenDiff(from: int, to: int, nested: NestedGen) returns (r: Option<seq<Action>>)
      requires Valid() && Distinct(target)
      modifies this
      ensures Valid() && target == old(target) && nextObject == old(nextObject)
      ensures to < from ==> r == None && unchanged(this)
      ensures from <= to <= old(lastCheckVersion) && from > old(lastVersion) ==> r == None && unchanged(this)
      ensures from <= to && old(lastCheckVersion) < to ==> lastCheckVersion == to && Synced()
      ensures from <= to && old(lastCheckVersion) < to && target != [] ==>
                && data == Rescanned(old(data), old(dataIndexMap), target, old(lastVersion))
                && |old(actionSequence)| <= |actionSequence| <= |old(actionSequence)| + 1
                && actionSequence[..|old(actionSequence)|] == old(actionSequence)
      ensures from <= to <= old(lastCheckVersion) ==>
                && data == old(data) && dataIndexMap == old(dataIndexMap)
                && actionSequence == old(actionSequence) && lastCheckVersion == old(lastCheckVersion)
      ensures from <= to && old(lastCheckVersion) < to && target == [] ==>
                r == Some([Clear]) && actionSequence == [LogEntry(to, [Clear])] && lastVersion == to
      ensures from <= to && !(to <= old(lastCheckVersion) && from > old(lastVersion))
              && !(old(lastCheckVersion) < to && target == []) ==>
                && r == Some(Flatten(actionSequence[FromIndex(actionSequence, from)..])
                             + UpdateBlock(UpdateItems(data, from, to, nested, |data|)))
                && lastVersion == (if r.value == [] then old(lastVersion) else to)
    {
      if to < from {
        return None;
      }
      var needScan := lastCheckVersion < to;
      if !needScan && from > lastVersion {
        return None;
      }
      if needScan {
        var acts := ScanAndLog(to);
        if |acts| > 0 && acts[0].Clear? {
          lastVersion := to;
          return Some(acts);
        }
      }
      var ret := Answer(from, to, nested);
      if |ret| > 0 {
        lastVersion := to;
      }
      return Some(ret);
    }

    /**
     * The answer once any rescan is done: the commands of every log entry
     * newer than `from` (the whole log when `from <= 0`), then the `Update`
     * block.
     */
    method Answer(from: int, to: int, nested: NestedGen) returns (ret: seq<Action>)
      requires Valid()
      ensures ret == Flatten(actionSequence[FromIndex(actionSequence, from)..])
                     + UpdateBlock(UpdateItems(data, from, to, nested, |data|))
    {
      var fromIndex := 0;
      if from > 0 {
        fromIndex := GetActionIndex(from + 1);
      }
      ret := CollectActions(actionSequence, fromIndex);
      var items := UpdatePass(data, from, to, nested);
      if |items| > 0 {
        ret := ret + [Update(items)];
      }
    }

    /**
     * Replays a delta on the mirror's array and shadow. The "no change"
     * sentinel leaves everything as it is. Otherwise the result is the replay
     * of the structural commands on both, each `Insert` creating a fresh
     * default object stamped `lastVersion`, followed by the forwarding of every
     * pair of the `Update` command; the mirror's index is not touched.
     */
    method ApplyDiff(diff: Option<seq<Action>>) returns (ok: bool, calls: seq<Call>)
      modifies this
      ensures dataIndexMap == old(dataIndexMap) && actionSequence == old(actionSequence)
      ensures lastVersion == old(lastVersion) && lastCheckVersion == old(lastCheckVersion)
      ensures before == old(before) && created == old(created)
      ensures diff.None? ==> ok && calls == [] && unchanged(this)
      ensures diff.Some? ==>
                var made := Created(diff.value, old(lastVersion), old(nextObject));
                var rd := Replay(old(data), diff.value, made);
                var rt := Replay(old(target), diff.value, Bounds(made));
                && (ok <==> rd.Some? && rt.Some? && Forward(rd.value, UpdatesOf(diff.value)).Some?)
                && (ok ==> data == rd.value && target == rt.value && Forward(data, UpdatesOf(diff.value)) == Some(calls))
                && (ok ==> nextObject == old(nextObject) + InsertCount(diff.value))
    {
      if diff.None? {
        return true, [];
      }
      var t, d, n;
      ok, calls, t, d, n := MirrorReplay(target, data, diff.value, lastVersion, nextObject);
      target, data, nextObject := t, d, n;
    }

    /** The version of the last non-empty answer. */
    function GetVersion(): int
      reads this
    {
      lastVersion
    }
  }
}
