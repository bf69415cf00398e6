/**
 * The shadow of the identity-tracked array replicator and what a rescan does
 * to it. The shadow holds one entry per element, bound to that element for the
 * element's whole life, and an index from elements to their positions. A
 * rescan compares the live array with the shadow by identity and describes the
 * difference as deletions (descending positions of elements that are gone),
 * insertions (ascending positions of elements that are new) and swaps.
 */
module LinkModel {
  import opened Common
  import opened Actions

  /** Shadow entry: the version at which it was created, its creation index and the element it is bound to. */
  datatype Entry = Entry(version: int, index: int, bound: Handle)

  function BoundOf(e: Entry): Handle
  {
    e.bound
  }

  function Bounds(s: seq<Entry>): (r: seq<Handle>)
    ensures |r| == |s| && forall i :: 0 <= i < |s| ==> r[i] == s[i].bound
  {
    MapSeq(BoundOf, s)
  }

  /** `m` maps each element of `s` to its index and maps nothing else. */
  predicate IndexOf(m: map<Handle, int>, s: seq<Handle>)
  {
    && (forall i :: 0 <= i < |s| ==> s[i] in m && m[s[i]] == i)
    && (forall h :: h in m ==> 0 <= m[h] < |s| && s[m[h]] == h)
  }

  /** An index of positions only exists for a sequence without repetitions, and covers exactly its elements. */
  lemma IndexOfFacts(m: map<Handle, int>, s: seq<Handle>)
    requires IndexOf(m, s)
    ensures Distinct(s) && m.Keys == Elems(s)
  {
    forall h | h in Elems(s) ensures h in m {
      var i :| 0 <= i < |s| && s[i] == h;
    }
  }

  /** The entries bound to elements of `live`, in shadow order. */
  function Keep(s: seq<Entry>, live: set<Handle>): seq<Entry>
  {
    if s == [] then []
    else (if s[0].bound in live then [s[0]] else []) + Keep(s[1..], live)
  }

  lemma {:induction false} KeepMembers(s: seq<Entry>, live: set<Handle>)
    ensures forall e :: e in Keep(s, live) <==> e in s && e.bound in live
  {
    if s != [] {
      KeepMembers(s[1..], live);
      assert s == [s[0]] + s[1..];
    }
  }

  lemma KeepBounds(s: seq<Entry>, live: set<Handle>)
    ensures Elems(Bounds(Keep(s, live))) == Elems(Bounds(s)) * live
  {
    KeepMembers(s, live);
    var k := Keep(s, live);
    forall h | h in Elems(Bounds(k)) ensures h in Elems(Bounds(s)) * live {
      var i :| 0 <= i < |k| && Bounds(k)[i] == h;
      assert k[i] in s;
      var j :| 0 <= j < |s| && s[j] == k[i];
      assert Bounds(s)[j] == h;
    }
    forall h | h in Elems(Bounds(s)) * live ensures h in Elems(Bounds(k)) {
      var j :| 0 <= j < |s| && Bounds(s)[j] == h;
      assert s[j] in k;
      var i :| 0 <= i < |k| && k[i] == s[j];
      assert Bounds(k)[i] == h;
    }
  }

  lemma {:induction false} KeepDistinct(s: seq<Entry>, live: set<Handle>)
    requires Distinct(Bounds(s))
    ensures Distinct(Bounds(Keep(s, live)))
  {
    if s != [] {
      var r := s[1..];
      assert Bounds(s) == [s[0].bound] + Bounds(r);
      DistinctConcat([s[0].bound], Bounds(r));
      KeepDistinct(r, live);
      var head := if s[0].bound in live then [s[0]] else [];
      var k := Keep(r, live);
      assert Keep(s, live) == head + k;
      assert Bounds(head + k) == Bounds(head) + Bounds(k);
      KeepBounds(r, live);
      DistinctConcat(Bounds(head), Bounds(k));
    }
  }

  /** Positions `lo` and above whose entry is bound to an element no longer live, in descending order. */
  function DeadFrom(s: seq<Entry>, live: set<Handle>, lo: nat): seq<nat>
    requires lo <= |s|
    decreases |s| - lo
  {
    if lo == |s| then []
    else DeadFrom(s, live, lo + 1) + (if s[lo].bound in live then [] else [lo])
  }

  /**
   * The deletion list is strictly decreasing and lists exactly the positions
   * whose entry's element is no longer live.
   */
  lemma {:induction false} DeadFromShape(s: seq<Entry>, live: set<Handle>, lo: nat)
    requires lo <= |s|
    ensures forall a, b :: 0 <= a < b < |DeadFrom(s, live, lo)| ==> DeadFrom(s, live, lo)[a] > DeadFrom(s, live, lo)[b]
    ensures forall k :: 0 <= k < |DeadFrom(s, live, lo)| ==> lo <= DeadFrom(s, live, lo)[k] < |s|
    ensures forall j :: j in DeadFrom(s, live, lo) <==> lo <= j < |s| && s[j].bound !in live
    decreases |s| - lo
  {
    if lo < |s| {
      DeadFromShape(s, live, lo + 1);
    }
  }

  /** The first step of `Keep` on a suffix. */
  lemma KeepSuffix(s: seq<Entry>, live: set<Handle>, lo: nat)
    requires lo < |s|
    ensures Keep(s[lo..], live) == (if s[lo].bound in live then [s[lo]] else []) + Keep(s[lo + 1..], live)
  {
    assert s[lo..][1..] == s[lo + 1..];
  }

  /**
   * Deleting the dead positions from the highest down leaves exactly the
   * live entries, in their order.
   */
  lemma {:induction false} RemoveDeadIsKeep(s: seq<Entry>, live: set<Handle>, lo: nat)
    requires lo <= |s|
    ensures RemoveAll(s, DeadFrom(s, live, lo)) == s[..lo] + Keep(s[lo..], live)
    decreases |s| - lo
  {
    if lo == |s| {
      assert s[lo..] == [];
      assert s[..lo] == s;
    } else {
      RemoveDeadIsKeep(s, live, lo + 1);
      RemoveDeadStep(s, live, lo);
    }
  }

  /** One step of `RemoveDeadIsKeep`: from position `lo + 1` down to `lo`. */
  lemma RemoveDeadStep(s: seq<Entry>, live: set<Handle>, lo: nat)
    requires lo < |s|
    requires RemoveAll(s, DeadFrom(s, live, lo + 1)) == s[..lo + 1] + Keep(s[lo + 1..], live)
    ensures RemoveAll(s, DeadFrom(s, live, lo)) == s[..lo] + Keep(s[lo..], live)
  {
    KeepSuffix(s, live, lo);
    if s[lo].bound in live {
      RemoveDeadLive(s, live, lo);
    } else {
      RemoveDeadGone(s, live, lo);
    }
  }

  /** `RemoveDeadStep` when the entry at `lo` is still live: nothing more is deleted. */
  lemma RemoveDeadLive(s: seq<Entry>, live: set<Handle>, lo: nat)
    requires lo < |s| && s[lo].bound in live
    requires RemoveAll(s, DeadFrom(s, live, lo + 1)) == s[..lo + 1] + Keep(s[lo + 1..], live)
    requires Keep(s[lo..], live) == [s[lo]] + Keep(s[lo + 1..], live)
    ensures RemoveAll(s, DeadFrom(s, live, lo)) == s[..lo] + Keep(s[lo..], live)
  {
    DeadFromLive(s, live, lo);
    Regroup(s, lo, Keep(s[lo + 1..], live));
  }

  /** A live entry at `lo` adds no deletion. */
  lemma DeadFromLive(s: seq<Entry>, live: set<Handle>, lo: nat)
    requires lo < |s| && s[lo].bound in live
    ensures DeadFrom(s, live, lo) == DeadFrom(s, live, lo + 1)
  {
    assert DeadFrom(s, live, lo + 1) + [] == DeadFrom(s, live, lo + 1);
  }

  /** The prefix up to `lo`, then the element at `lo`, is the prefix up to `lo + 1`. */
  lemma Regroup<X>(s: seq<X>, lo: nat, k: seq<X>)
    requires lo < |s|
    ensures s[..lo] + ([s[lo]] + k) == s[..lo + 1] + k
  {
    assert s[..lo + 1] == s[..lo] + [s[lo]];
  }

  /** `RemoveDeadStep` when the entry at `lo` is gone: position `lo` is deleted last. */
  lemma RemoveDeadGone(s: seq<Entry>, live: set<Handle>, lo: nat)
    requires lo < |s| && s[lo].bound !in live
    requires RemoveAll(s, DeadFrom(s, live, lo + 1)) == s[..lo + 1] + Keep(s[lo + 1..], live)
    requires Keep(s[lo..], live) == Keep(s[lo + 1..], live)
    ensures RemoveAll(s, DeadFrom(s, live, lo)) == s[..lo] + Keep(s[lo..], live)
  {
    var d := DeadFrom(s, live, lo + 1);
    DeadFromGone(s, live, lo);
    RemoveAllSnoc(s, d, lo);
    RemoveAfterPrefix(s, lo, Keep(s[lo + 1..], live));
  }

  /** A dead entry at `lo` is deleted after every position above it. */
  lemma DeadFromGone(s: seq<Entry>, live: set<Handle>, lo: nat)
    requires lo < |s| && s[lo].bound !in live
    ensures DeadFrom(s, live, lo) == DeadFrom(s, live, lo + 1) + [lo]
  {
  }

  /** Removing position `lo` from the prefix up to `lo + 1` followed by `k` leaves the prefix up to `lo` and `k`. */
  lemma RemoveAfterPrefix<X>(s: seq<X>, lo: nat, k: seq<X>)
    requires lo < |s|
    ensures RemoveAt(s[..lo + 1] + k, lo) == s[..lo] + k
  {
    assert s[..lo + 1] + k == s[..lo] + [s[lo]] + k;
    RemoveJoin(s[..lo], s[lo], k);
  }

  /** Removing the element between two parts joins them. */
  lemma RemoveJoin<X>(a: seq<X>, x: X, k: seq<X>)
    ensures RemoveAt(a + [x] + k, |a|) == a + k
  {
    assert (a + [x] + k)[..|a|] == a;
    assert (a + [x] + k)[|a| + 1..] == k;
  }

  /** The first `n` positions of `t` whose element is not yet `known`, in ascending order. */
  function NewPositions(t: seq<Handle>, known: set<Handle>, n: nat): (r: seq<nat>)
    requires n <= |t|
    ensures forall k :: 0 <= k < |r| ==> r[k] < n
  {
    if n == 0 then []
    else NewPositions(t, known, n - 1) + (if t[n - 1] in known then [] else [n - 1])
  }

  /** The insertion list is strictly increasing and lists exactly the positions of new elements. */
  lemma {:induction false} NewPositionsShape(t: seq<Handle>, known: set<Handle>, n: nat)
    requires n <= |t|
    ensures forall a, b :: 0 <= a < b < |NewPositions(t, known, n)| ==> NewPositions(t, known, n)[a] < NewPositions(t, known, n)[b]
    ensures forall p :: p in NewPositions(t, known, n) <==> 0 <= p < n && t[p] !in known
  {
    if n > 0 {
      NewPositionsShape(t, known, n - 1);
    }
  }

  /** The entries a rescan creates, one per new position, stamped `lv`. */
  function NewEntries(t: seq<Handle>, idx: seq<nat>, lv: int): (r: seq<Entry>)
    requires forall k :: 0 <= k < |idx| ==> idx[k] < |t|
    ensures |r| == |idx|
  {
    seq(|idx|, k requires 0 <= k < |idx| => Entry(lv, idx[k], t[idx[k]]))
  }

  /**
   * The shadow after a rescan: the entry of each live element, in live order;
   * an element the index `m` knew keeps its entry, a new one gets an entry
   * stamped `lv` at its position.
   */
  function Rescanned(prev: seq<Entry>, m: map<Handle, int>, t: seq<Handle>, lv: int): (r: seq<Entry>)
    ensures |r| == |t|
  {
    seq(|t|, i requires 0 <= i < |t| =>
      if t[i] in m && 0 <= m[t[i]] < |prev| then prev[m[t[i]]] else Entry(lv, i, t[i]))
  }

  /** `e` is, at the position of its element, the entry the rescan must end with. */
  predicate Placed(e: Entry, prev: seq<Entry>, m: map<Handle, int>, t: seq<Handle>, lv: int)
  {
    forall i :: 0 <= i < |t| && t[i] == e.bound ==> e == Rescanned(prev, m, t, lv)[i]
  }

  /** A reordering of placed entries that lists the live elements in order is the rescanned shadow. */
  lemma PlacedInOrder(d: seq<Entry>, a: seq<Entry>, prev: seq<Entry>, m: map<Handle, int>, t: seq<Handle>, lv: int)
    requires forall e :: e in a ==> Placed(e, prev, m, t, lv)
    requires Bounds(d) == t
    requires forall j :: 0 <= j < |d| ==> d[j] in a
    ensures d == Rescanned(prev, m, t, lv)
  {
    forall i | 0 <= i < |t| ensures d[i] == Rescanned(prev, m, t, lv)[i] {
      assert d[i] in a && d[i].bound == Bounds(d)[i];
    }
  }

  /** The created entries are bound to distinct elements: exactly the live ones not yet known. */
  lemma NewEntriesBounds(t: seq<Handle>, known: set<Handle>, lv: int)
    requires Distinct(t)
    ensures var ne := NewEntries(t, NewPositions(t, known, |t|), lv);
            Distinct(Bounds(ne)) && Elems(Bounds(ne)) == Elems(t) - known
  {
    var idx := NewPositions(t, known, |t|);
    var ne := NewEntries(t, idx, lv);
    NewPositionsShape(t, known, |t|);
    assert Distinct(Bounds(ne)) by {
      forall x, y | 0 <= x < y < |ne| ensures Bounds(ne)[x] != Bounds(ne)[y] {
        assert idx[x] < idx[y];
      }
    }
    forall h | h in Elems(Bounds(ne)) ensures h in Elems(t) - known {
      var x :| 0 <= x < |ne| && Bounds(ne)[x] == h;
      assert idx[x] in idx;
    }
    forall h | h in Elems(t) - known ensures h in Elems(Bounds(ne)) {
      var p :| 0 <= p < |t| && t[p] == h;
      assert p in idx;
      var x :| 0 <= x < |idx| && idx[x] == p;
      assert Bounds(ne)[x] == h;
    }
  }

  /**
   * After the deletions and the insertions the shadow has one entry per live
   * element and no element twice; only the order may still differ.
   */
  lemma ShadowAfterInserts(prev: seq<Entry>, m: map<Handle, int>, t: seq<Handle>, lv: int)
    requires IndexOf(m, Bounds(prev)) && Distinct(t)
    ensures var idx := NewPositions(t, m.Keys, |t|);
            var a := InsertAll(Keep(prev, Elems(t)), idx, NewEntries(t, idx, lv));
            |a| == |t| && Distinct(Bounds(a)) && Elems(Bounds(a)) == Elems(t)
  {
    var T := Elems(t);
    var idx := NewPositions(t, m.Keys, |t|);
    var k := Keep(prev, T);
    var ne := NewEntries(t, idx, lv);
    var a := InsertAll(k, idx, ne);
    IndexOfFacts(m, Bounds(prev));
    KeepBounds(prev, T);
    KeepDistinct(prev, T);
    NewEntriesBounds(t, m.Keys, lv);
    InsertAllMaps(BoundOf, k, idx, ne);
    InsertAllElems(Bounds(k), idx, Bounds(ne));
    assert Elems(Bounds(a)) == T;
    SameElemsSameLength(Bounds(a), t);
  }

  /** An entry kept by the deletions is the entry its element had. */
  lemma KeptIsPlaced(prev: seq<Entry>, m: map<Handle, int>, t: seq<Handle>, lv: int, e: Entry)
    requires IndexOf(m, Bounds(prev)) && e in prev
    ensures Placed(e, prev, m, t, lv)
  {
    var j :| 0 <= j < |prev| && prev[j] == e;
    assert Bounds(prev)[j] == e.bound;
  }

  /** A created entry sits at the position of the element it was created for. */
  lemma CreatedIsPlaced(prev: seq<Entry>, m: map<Handle, int>, t: seq<Handle>, lv: int, e: Entry)
    requires Distinct(t)
    requires e in NewEntries(t, NewPositions(t, m.Keys, |t|), lv)
    ensures Placed(e, prev, m, t, lv)
  {
    var idx := NewPositions(t, m.Keys, |t|);
    var ne := NewEntries(t, idx, lv);
    NewPositionsShape(t, m.Keys, |t|);
    var x :| 0 <= x < |ne| && ne[x] == e;
    assert idx[x] in idx;
    forall i | 0 <= i < |t| && t[i] == e.bound ensures e == Rescanned(prev, m, t, lv)[i] {
      assert t[i] == t[idx[x]];
    }
  }

  /**
   * Every entry of the shadow after the deletions and the insertions is the
   * one the rescan must end with at its element's position.
   */
  lemma ShadowAfterInsertsPlaced(prev: seq<Entry>, m: map<Handle, int>, t: seq<Handle>, lv: int)
    requires IndexOf(m, Bounds(prev)) && Distinct(t)
    ensures var idx := NewPositions(t, m.Keys, |t|);
            forall e :: e in InsertAll(Keep(prev, Elems(t)), idx, NewEntries(t, idx, lv)) ==> Placed(e, prev, m, t, lv)
  {
    var idx := NewPositions(t, m.Keys, |t|);
    var k := Keep(prev, Elems(t));
    var ne := NewEntries(t, idx, lv);
    KeepMembers(prev, Elems(t));
    InsertAllElems(k, idx, ne);
    forall e | e in InsertAll(k, idx, ne) ensures Placed(e, prev, m, t, lv) {
      assert e in Elems(k) + Elems(ne);
      if e in k {
        KeptIsPlaced(prev, m, t, lv, e);
      } else {
        CreatedIsPlaced(prev, m, t, lv, e);
      }
    }
  }

  /** The positions the index `m` still holds after the live elements were taken out are the dead positions. */
  lemma RemainingAreDead(prev: seq<Entry>, m: map<Handle, int>, live: set<Handle>, j: nat)
    requires IndexOf(m, Bounds(prev)) && j < |prev|
    ensures j in (m - live).Values <==> prev[j].bound !in live
  {
    assert Bounds(prev)[j] == prev[j].bound;
    if prev[j].bound !in live {
      assert (m - live)[prev[j].bound] == j;
    }
    if j in (m - live).Values {
      var h :| h in (m - live) && (m - live)[h] == j;
      assert Bounds(prev)[m[h]] == h;
    }
  }

  /**
   * The command list of a rescan that does not clear: deletions, then
   * insertions, then swaps, each only when non-empty. It carries no `Update`
   * and no `Clear`, creates one element per insertion, and is empty exactly
   * when nothing changed.
   */
  function ScanActions(dels: seq<nat>, ins: seq<nat>, moves: seq<MovePair>): (r: seq<Action>)
    ensures NoUpdate(r) && InsertCount(r) == |ins|
    ensures forall k :: 0 <= k < |r| ==> !r[k].Clear?
    ensures r == [] <==> dels == [] && ins == [] && moves == []
  {
    var tail: seq<Action> := if moves == [] then [] else [Move(moves)];
    var mid: seq<Action> := (if ins == [] then [] else [Insert(ins)]) + tail;
    assert InsertCount(tail) == 0;
    assert InsertCount(mid) == |ins| by {
      if ins != [] {
        assert mid[1..] == tail;
      }
    }
    var acts: seq<Action> := (if dels == [] then [] else [Delete(dels)]) + mid;
    assert dels == [] ==> acts == mid;
    assert dels != [] ==> acts[0] == Delete(dels) && acts[1..] == mid;
    assert InsertCount(acts) == InsertCount(mid);
    acts
  }

  /** Replaying a rescan's command list deletes, then inserts the supplied elements, then swaps. */
  lemma ReplayScanActions<X>(s: seq<X>, dels: seq<nat>, ins: seq<nat>, moves: seq<MovePair>, elems: seq<X>)
    requires |elems| == |ins|
    ensures Replay(s, ScanActions(dels, ins, moves), elems) == SwapAll(InsertAll(RemoveAll(s, dels), ins, elems), moves)
  {
    var s1 := RemoveAll(s, dels);
    var s2 := InsertAll(s1, ins, elems);
    var tail: seq<Action> := if moves == [] then [] else [Move(moves)];
    assert Replay(s2, tail, []) == SwapAll(s2, moves) by {
      if moves != [] {
        assert tail[0] == Move(moves) && tail[1..] == [];
      }
    }
    var mid: seq<Action> := (if ins == [] then [] else [Insert(ins)]) + tail;
    assert Replay(s1, mid, elems) == Replay(s2, tail, []) by {
      if ins != [] {
        assert mid[0] == Insert(ins) && mid[1..] == tail;
        assert elems[..|ins|] == elems && elems[|ins|..] == [];
      } else {
        assert mid == tail && elems == [];
      }
    }
    var all := ScanActions(dels, ins, moves);
    assert all == (if dels == [] then [] else [Delete(dels)]) + mid;
    if dels != [] {
      assert all[0] == Delete(dels) && all[1..] == mid;
    } else {
      assert all == mid;
    }
  }

  function CountTrue(bs: seq<bool>): (r: nat)
    ensures r <= |bs|
  {
    if bs == [] then 0 else (if bs[0] then 1 else 0) + CountTrue(bs[1..])
  }

  /** Clearing flags, and clearing at least one set flag, lowers the count. */
  lemma {:induction false} CountDrops(a: seq<bool>, b: seq<bool>, at: int)
    requires |a| == |b|
    requires forall j :: 0 <= j < |a| && b[j] ==> a[j]
    ensures CountTrue(b) <= CountTrue(a)
    ensures 0 <= at < |a| && a[at] && !b[at] ==> CountTrue(b) < CountTrue(a)
  {
    if a != [] {
      CountDrops(a[1..], b[1..], at - 1);
    }
  }

  /** Which positions of the shadow are not yet bound to the live element at that position. */
  function Misplaced(d: seq<Entry>, t: seq<Handle>): (r: seq<bool>)
    requires |d| == |t|
    ensures |r| == |t|
  {
    seq(|t|, j requires 0 <= j < |t| => d[j].bound != t[j])
  }
}
