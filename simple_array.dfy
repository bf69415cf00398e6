/**
 * SimpleArrayReplicator: delta replication of an array of primitive values.
 * The replicator keeps one shadow slot per index (the value last seen and the
 * version at which it last changed) and encodes a delta as the live length
 * followed by (index, value) pairs.
 */
module SimpleArray {
  import opened Common

  /** Shadow slot: the value last seen at an index and the version it last changed. */
  datatype Slot = Slot(version: int, value: int)

  /** One `(index, value)` pair of a delta. */
  datatype Pair = Pair(index: nat, value: int)

  /** The delta `[length, index, value, index, value, ...]`. */
  datatype SimpleDiff = SimpleDiff(length: nat, pairs: seq<Pair>)

  predicate InRange(version: int, from: int, to: int)
  {
    from <= version <= to
  }

  function Values(s: seq<Slot>): (r: seq<int>)
    ensures |r| == |s|
    ensures forall i :: 0 <= i < |s| ==> r[i] == s[i].value
  {
    seq(|s|, i requires 0 <= i < |s| => s[i].value)
  }

  /**
   * The shadow after a rescan at version `to`: cut or extended to the live
   * length, with every new or changed slot stamped `to`; an unchanged slot
   * keeps its version.
   */
  function Rescan(data: seq<Slot>, target: seq<int>, to: int): (r: seq<Slot>)
    ensures |r| == |target|
    ensures Values(r) == target
    ensures forall i :: 0 <= i < |r| && i < |data| && data[i].value == target[i] ==> r[i] == data[i]
    ensures forall i :: 0 <= i < |r| && (i >= |data| || data[i].value != target[i]) ==> r[i].version == to
  {
    seq(|target|, i requires 0 <= i < |target| =>
      if i >= |data| || data[i].value != target[i] then Slot(to, target[i]) else data[i])
  }

  /** The pairs for the first `n` slots whose version lies in `[from, to]`, in index order. */
  function EmittedUpTo(s: seq<Slot>, from: int, to: int, n: nat): seq<Pair>
    requires n <= |s|
  {
    if n == 0 then []
    else EmittedUpTo(s, from, to, n - 1)
         + (if InRange(s[n - 1].version, from, to) then [Pair(n - 1, s[n - 1].value)] else [])
  }

  function Emitted(s: seq<Slot>, from: int, to: int): seq<Pair>
  {
    EmittedUpTo(s, from, to, |s|)
  }

  function IndexSet(ps: seq<Pair>): set<nat>
  {
    set k | 0 <= k < |ps| :: ps[k].index
  }

  predicate StrictlyIncreasing(ps: seq<Pair>)
  {
    forall a, b :: 0 <= a < b < |ps| ==> ps[a].index < ps[b].index
  }

  /**
   * The pairs of a delta are in strictly increasing index order, lie below the
   * shadow length, carry the shadow's values, and are exactly the slots whose
   * version lies in `[from, to]`.
   */
  lemma {:induction false} EmittedShape(s: seq<Slot>, from: int, to: int, n: nat)
    requires n <= |s|
    ensures StrictlyIncreasing(EmittedUpTo(s, from, to, n))
    ensures forall k :: 0 <= k < |EmittedUpTo(s, from, to, n)| ==>
              EmittedUpTo(s, from, to, n)[k].index < n
              && EmittedUpTo(s, from, to, n)[k].value == s[EmittedUpTo(s, from, to, n)[k].index].value
    ensures forall j: nat :: j in IndexSet(EmittedUpTo(s, from, to, n)) <==> j < n && InRange(s[j].version, from, to)
  {
    if n > 0 {
      EmittedShape(s, from, to, n - 1);
      var prev := EmittedUpTo(s, from, to, n - 1);
      if InRange(s[n - 1].version, from, to) {
        EmitStep(s, n, prev);
      } else {
        assert EmittedUpTo(s, from, to, n) == prev + [];
        assert prev + [] == prev;
      }
    }
  }

  /** Emitting the slot at `n - 1` after the pairs of the slots below it. */
  lemma EmitStep(s: seq<Slot>, n: nat, prev: seq<Pair>)
    requires 0 < n <= |s|
    requires StrictlyIncreasing(prev)
    requires forall k :: 0 <= k < |prev| ==> prev[k].index < n - 1 && prev[k].value == s[prev[k].index].value
    ensures var cur := prev + [Pair(n - 1, s[n - 1].value)];
            && StrictlyIncreasing(cur)
            && (forall k :: 0 <= k < |cur| ==> cur[k].index < n && cur[k].value == s[cur[k].index].value)
            && IndexSet(cur) == IndexSet(prev) + {n - 1}
  {
    var cur := prev + [Pair(n - 1, s[n - 1].value)];
    assert forall k :: 0 <= k < |prev| ==> cur[k] == prev[k];
    IndexSetSnoc(prev, Pair(n - 1, s[n - 1].value));
  }

  /** The indices of one more pair. */
  lemma IndexSetSnoc(ps: seq<Pair>, p: Pair)
    ensures IndexSet(ps + [p]) == IndexSet(ps) + {p.index}
  {
    var cur := ps + [p];
    forall j | j in IndexSet(cur) ensures j in IndexSet(ps) + {p.index} {
      var k :| 0 <= k < |cur| && cur[k].index == j;
      if k < |ps| { assert ps[k] == cur[k]; }
    }
    forall j | j in IndexSet(ps) ensures j in IndexSet(cur) {
      var k :| 0 <= k < |ps| && ps[k].index == j;
      assert cur[k] == ps[k];
    }
    assert cur[|ps|].index == p.index;
  }

  /**
   * Nothing for the window to carry: the live array reaches no index past the
   * shadow, agrees with it at every index, and none of the slots it keeps was
   * stamped inside `[from, to]`.
   */
  predicate Quiet(data: seq<Slot>, target: seq<int>, from: int, to: int)
  {
    && |target| <= |data|
    && forall j :: 0 <= j < |target| ==> data[j].value == target[j] && !InRange(data[j].version, from, to)
  }

  /** A sequence of pairs is empty exactly when it names no index. */
  lemma IndexSetEmpty(ps: seq<Pair>)
    ensures ps == [] <==> IndexSet(ps) == {}
  {
    if ps != [] {
      assert ps[0].index in IndexSet(ps);
    }
  }

  /** A rescan emits no pair exactly when the window has nothing to carry. */
  lemma QuietScan(data: seq<Slot>, target: seq<int>, from: int, to: int)
    ensures from <= to ==> (Emitted(Rescan(data, target, to), from, to) == [] <==> Quiet(data, target, from, to))
  {
    if from <= to {
      var s := Rescan(data, target, to);
      var pairs := Emitted(s, from, to);
      EmittedShape(s, from, to, |s|);
      IndexSetEmpty(pairs);
      if pairs == [] {
        forall j | 0 <= j < |target| ensures data[j].value == target[j] && !InRange(data[j].version, from, to) {
          assert j !in IndexSet(pairs);
        }
      }
    }
  }

  /**
   * Sentinel-or-delta of a rescan, as `genDiff` returns it: the sentinel is
   * answered exactly when the live length equals the shadow's and the window
   * has nothing to carry.
   */
  function ScanDiff(data: seq<Slot>, target: seq<int>, from: int, to: int): (r: Option<SimpleDiff>)
    ensures from <= to ==> (r.None? <==> |data| == |target| && Quiet(data, target, from, to))
  {
    QuietScan(data, target, from, to);
    var pairs := Emitted(Rescan(data, target, to), from, to);
    if |data| == |target| && pairs == [] then None else Some(SimpleDiff(|target|, pairs))
  }

  /**
   * The rescan answer with the sentinel test of the cached branch: a length
   * change at or after `from`, whether found by this rescan or by an earlier
   * one, rules the sentinel out.
   */
  function ScanDiffFixed(data: seq<Slot>, lastLengthVersion: int, target: seq<int>, from: int, to: int): (r: Option<SimpleDiff>)
    ensures from <= to ==>
              (r.None? <==> |data| == |target| && lastLengthVersion < from && Quiet(data, target, from, to))
  {
    QuietScan(data, target, from, to);
    var pairs := Emitted(Rescan(data, target, to), from, to);
    var lengthVersion := if |data| != |target| then to else lastLengthVersion;
    if lengthVersion < from && pairs == [] then None else Some(SimpleDiff(|target|, pairs))
  }

  /**
   * Sentinel-or-delta when no rescan is due, filtered from the shadow alone:
   * the sentinel is answered exactly when the length last changed before
   * `from` and no slot was stamped inside `[from, to]`.
   */
  function CachedDiff(data: seq<Slot>, liveLength: nat, lastLengthVersion: int, from: int, to: int): (r: Option<SimpleDiff>)
    ensures r.None? <==> lastLengthVersion < from && forall j :: 0 <= j < |data| ==> !InRange(data[j].version, from, to)
  {
    EmittedShape(data, from, to, |data|);
    IndexSetEmpty(Emitted(data, from, to));
    var pairs := Emitted(data, from, to);
    if lastLengthVersion < from && pairs == [] then None else Some(SimpleDiff(liveLength, pairs))
  }

  /** Mirror side: overwrite an index in range, append otherwise. */
  function Put(m: seq<int>, p: Pair): (r: seq<int>)
  {
    if p.index >= |m| then m + [p.value] else m[p.index := p.value]
  }

  /** Putting pairs one after the other never shortens the mirror and leaves every slot no pair names alone. */
  function PutAll(m: seq<int>, ps: seq<Pair>): (r: seq<int>)
    ensures |m| <= |r|
    ensures forall j :: 0 <= j < |m| && j !in IndexSet(ps) ==> r[j] == m[j]
    decreases |ps|
  {
    if ps == [] then m
    else
      IndexSetCons(ps);
      PutAll(Put(m, ps[0]), ps[1..])
  }

  /** The indices of a non-empty sequence of pairs: its first index and those of the rest. */
  lemma IndexSetCons(ps: seq<Pair>)
    requires ps != []
    ensures IndexSet(ps) == {ps[0].index} + IndexSet(ps[1..])
  {
    forall j | j in IndexSet(ps[1..]) ensures j in IndexSet(ps) {
      var k :| 0 <= k < |ps[1..]| && ps[1..][k].index == j;
      assert ps[k + 1].index == j;
    }
  }

  function Truncate(m: seq<int>, n: nat): seq<int>
  {
    if n < |m| then m[..n] else m
  }

  /**
   * What `applyDiff` does to the mirror: the sentinel leaves it alone, and a
   * delta keeps every slot below its length that none of its pairs names.
   */
  function ApplyOpt(m: seq<int>, d: Option<SimpleDiff>): (r: seq<int>)
    ensures d.None? ==> r == m
    ensures d.Some? ==>
              forall j :: 0 <= j < |m| && j < d.value.length && j !in IndexSet(d.value.pairs) ==> j < |r| && r[j] == m[j]
  {
    match d
    case None => m
    case Some(SimpleDiff(length, pairs)) => PutAll(Truncate(m, length), pairs)
  }

  /**
   * Replaying increasing pairs rebuilds `t` from a mirror that already agrees
   * with `t` wherever no pair lands and that is missing only a tail of `t`
   * whose every index is covered by a pair.
   */
  lemma {:induction false} PutAllRebuilds(m: seq<int>, ps: seq<Pair>, t: seq<int>)
    requires |m| <= |t|
    requires StrictlyIncreasing(ps)
    requires forall k :: 0 <= k < |ps| ==> ps[k].index < |t| && ps[k].value == t[ps[k].index]
    requires forall j :: |m| <= j < |t| ==> j in IndexSet(ps)
    requires forall j :: 0 <= j < |m| && j !in IndexSet(ps) ==> m[j] == t[j]
    ensures PutAll(m, ps) == t
    decreases |ps|
  {
    if ps == [] {
      assert IndexSet(ps) == {};
      assert |m| !in IndexSet(ps);
      assert |m| == |t|;
    } else {
      var p := ps[0];
      var rest := ps[1..];
      assert forall j :: j in IndexSet(ps) <==> j == p.index || j in IndexSet(rest) by {
        forall j | j in IndexSet(ps) ensures j == p.index || j in IndexSet(rest) {
          var k :| 0 <= k < |ps| && ps[k].index == j;
          if k > 0 { assert rest[k - 1] == ps[k]; }
        }
        forall j | j in IndexSet(rest) ensures j in IndexSet(ps) {
          var k :| 0 <= k < |rest| && rest[k].index == j;
          assert ps[k + 1] == rest[k];
        }
      }
      assert p.index !in IndexSet(rest) by {
        forall k | 0 <= k < |rest| ensures rest[k].index != p.index {
          assert rest[k] == ps[k + 1];
        }
      }
      var m' := Put(m, p);
      if p.index >= |m| {
        assert p.index == |m| by {
          assert |m| in IndexSet(ps);
          forall k | 0 < k < |ps| ensures ps[k].index != |m| {
            assert ps[0].index < ps[k].index;
          }
        }
      }
      PutAllRebuilds(m', rest, t);
    }
  }

  /**
   * Round trip for a delta filtered from a shadow `s` of the live array `t`:
   * a mirror that agrees with `t` on every slot whose version is outside
   * `[from, to]`, and whose missing tail is made of slots inside the range,
   * ends equal to `t`.
   */
  lemma ReplayFilteredDelta(m: seq<int>, s: seq<Slot>, t: seq<int>, from: int, to: int)
    requires Values(s) == t
    requires forall j :: 0 <= j < |m| && j < |t| && !InRange(s[j].version, from, to) ==> m[j] == t[j]
    requires forall j :: |m| <= j < |t| ==> InRange(s[j].version, from, to)
    ensures ApplyOpt(m, Some(SimpleDiff(|t|, Emitted(s, from, to)))) == t
  {
    EmittedShape(s, from, to, |s|);
    var m' := Truncate(m, |t|);
    PutAllRebuilds(m', Emitted(s, from, to), t);
  }

  /**
   * A mirror that the window `[from, to]` brings up to date: it agrees with
   * the shadow on every slot stamped outside the window, the shadow slots it
   * lacks were stamped inside it, and its length differs from the shadow's
   * only if the length last changed at or after `from`. With the corrected
   * sentinels, a mirror that has applied every answer up to `from` is such a
   * mirror.
   */
  predicate Lagging(m: seq<int>, data: seq<Slot>, lastLengthVersion: int, from: int, to: int)
  {
    && (|m| != |data| ==> from <= lastLengthVersion)
    && (forall j :: 0 <= j < |m| && j < |data| && !InRange(data[j].version, from, to) ==> m[j] == data[j].value)
    && (forall j :: |m| <= j < |data| ==> InRange(data[j].version, from, to))
  }

  /**
   * Round trip of a rescan as written, for a mirror as long as the pre-scan
   * shadow that agrees with it on every slot outside `[from, to]`: the mirror
   * ends equal to the live array, whether the rescan answers with a delta or
   * with the sentinel.
   */
  lemma ScanRoundTrip(m: seq<int>, data: seq<Slot>, t: seq<int>, from: int, to: int)
    requires from <= to
    requires |m| == |data|
    requires forall j :: 0 <= j < |data| && !InRange(data[j].version, from, to) ==> m[j] == data[j].value
    ensures ApplyOpt(m, ScanDiff(data, t, from, to)) == t
  {
    var s := Rescan(data, t, to);
    EmittedShape(s, from, to, |s|);
    if ScanDiff(data, t, from, to).None? {
      forall j | 0 <= j < |t| ensures m[j] == t[j] {
        assert j !in IndexSet(Emitted(s, from, to));
      }
    } else {
      ReplayFilteredDelta(m, s, t, from, to);
    }
  }

  /** The pairs of a rescan bring any lagging mirror to the live array. */
  lemma ScanDeltaRebuilds(m: seq<int>, data: seq<Slot>, lastLengthVersion: int, t: seq<int>, from: int, to: int)
    requires from <= to
    requires Lagging(m, data, lastLengthVersion, from, to)
    ensures ApplyOpt(m, Some(SimpleDiff(|t|, Emitted(Rescan(data, t, to), from, to)))) == t
  {
    var s := Rescan(data, t, to);
    forall j | 0 <= j < |m| && j < |t| && !InRange(s[j].version, from, to) ensures m[j] == t[j] {
      assert j < |data| && s[j] == data[j];
    }
    forall j | |m| <= j < |t| ensures InRange(s[j].version, from, to) {
      if j < |data| && data[j].value == t[j] {
        assert s[j] == data[j];
      }
    }
    ReplayFilteredDelta(m, s, t, from, to);
  }

  /**
   * Round trip of the corrected rescan: every lagging mirror, whatever its
   * length, ends equal to the live array.
   */
  lemma ScanFixedRoundTrip(m: seq<int>, data: seq<Slot>, lastLengthVersion: int, t: seq<int>, from: int, to: int)
    requires from <= to
    requires Lagging(m, data, lastLengthVersion, from, to)
    ensures ApplyOpt(m, ScanDiffFixed(data, lastLengthVersion, t, from, to)) == t
  {
    if ScanDiffFixed(data, lastLengthVersion, t, from, to).Some? {
      ScanDeltaRebuilds(m, data, lastLengthVersion, t, from, to);
    }
  }

  /**
   * As written, a rescan answers the sentinel to an observer that missed a
   * shrink which an earlier rescan, for another observer, already absorbed.
   * The source holds `[1, 2, 3]` at version 0; the array becomes `[1, 2]`; a
   * first observer's `genDiff(1, 2)` cuts the shadow and moves the length
   * version to 2; a second observer, still at `[1, 2, 3]`, then asks for
   * `genDiff(1, 3)` and gets the sentinel, so it keeps the removed element.
   * The corrected rescan answers it with the new length.
   */
  lemma AbsorbedShrinkUnseen()
    ensures var d0 := [Slot(0, 1), Slot(0, 2), Slot(0, 3)];
            var d1 := Rescan(d0, [1, 2], 2);
            var m := [1, 2, 3];
            && d1 == [Slot(0, 1), Slot(0, 2)]
            && ScanDiff(d0, [1, 2], 1, 2) == Some(SimpleDiff(2, []))
            && Lagging(m, d1, 2, 1, 3)
            && ScanDiff(d1, [1, 2], 1, 3) == None
            && ApplyOpt(m, ScanDiff(d1, [1, 2], 1, 3)) == [1, 2, 3]
            && ScanDiffFixed(d1, 2, [1, 2], 1, 3) == Some(SimpleDiff(2, []))
            && ApplyOpt(m, ScanDiffFixed(d1, 2, [1, 2], 1, 3)) == [1, 2]
  {
    var d0 := [Slot(0, 1), Slot(0, 2), Slot(0, 3)];
    var d1 := Rescan(d0, [1, 2], 2);
    assert d1 == [Slot(0, 1), Slot(0, 2)];
    assert EmittedUpTo(d1, 1, 2, 1) == [];
    assert Emitted(d1, 1, 2) == [];
    var d2 := Rescan(d1, [1, 2], 3);
    assert d2 == d1;
    assert EmittedUpTo(d1, 1, 3, 1) == [];
    assert Emitted(d1, 1, 3) == [];
    assert [1, 2, 3][..2] == [1, 2];
  }

  /**
   * Round trip of the corrected cached answer, which carries the shadow's
   * length: every lagging mirror, whatever its length, ends equal to the
   * shadow, that is to the live array as of the last scan.
   */
  lemma CachedRoundTrip(m: seq<int>, data: seq<Slot>, lastLengthVersion: int, from: int, to: int)
    requires Lagging(m, data, lastLengthVersion, from, to)
    ensures ApplyOpt(m, CachedDiff(data, |data|, lastLengthVersion, from, to)) == Values(data)
  {
    if CachedDiff(data, |data|, lastLengthVersion, from, to).Some? {
      ReplayFilteredDelta(m, data, Values(data), from, to);
    }
  }

  /**
   * As written, a cached answer carries the live length with the shadow's
   * pairs. The shadow holds `[1, 2, 3]` with the last slot stamped 5 and the
   * length unchanged since 0; the live array then shrinks to `[1]` without a
   * rescan; `genDiff(4, 5)` answers length 1 with the pair `(2, 3)`, and a
   * lagging mirror `[1, 2, 9]` ends as `[1, 3]`, neither the shadow nor the
   * live array. The corrected answer, with the shadow's length, brings it to
   * the shadow.
   */
  lemma LiveLengthCachedCut()
    ensures var d := [Slot(0, 1), Slot(0, 2), Slot(5, 3)];
            var m := [1, 2, 9];
            && Lagging(m, d, 0, 4, 5)
            && CachedDiff(d, 1, 0, 4, 5) == Some(SimpleDiff(1, [Pair(2, 3)]))
            && ApplyOpt(m, CachedDiff(d, 1, 0, 4, 5)) == [1, 3]
            && [1, 3] != Values(d) && [1, 3] != [1]
            && ApplyOpt(m, CachedDiff(d, |d|, 0, 4, 5)) == Values(d) == [1, 2, 3]
  {
    var d := [Slot(0, 1), Slot(0, 2), Slot(5, 3)];
    var m := [1, 2, 9];
    assert EmittedUpTo(d, 4, 5, 1) == [];
    assert EmittedUpTo(d, 4, 5, 2) == [];
    assert Emitted(d, 4, 5) == [Pair(2, 3)];
    assert Truncate(m, 1) == [1];
    assert Values(d) == [1, 2, 3];
    CachedRoundTrip(m, d, 0, 4, 5);
  }

  /**
   * The scanning loop of `genDiff`: cuts the shadow to the live length, then
   * walks the live array, appending or restamping every new or changed slot
   * and collecting the pair of every slot whose version lies in `[from, to]`.
   */
  method RescanPass(data: seq<Slot>, target: seq<int>, from: int, to: int) returns (d: seq<Slot>, pairs: seq<Pair>)
    requires from <= to
    ensures d == Rescan(data, target, to)
    ensures pairs == Emitted(Rescan(data, target, to), from, to)
  {
    pairs := [];
    d := data;
    if |d| > |target| {
      d := d[..|target|];
    }
    ghost var cut := d;
    for i := 0 to |target|
      invariant RescanInv(cut, target, from, to, i, d, pairs)
    {
      RescanStep(cut, target, from, to, i, d, pairs);
      if |d| <= i {
        d := d + [Slot(to, target[i])];
        pairs := pairs + [Pair(i, target[i])];
      } else if d[i].value != target[i] {
        d := d[i := Slot(to, target[i])];
        pairs := pairs + [Pair(i, target[i])];
      } else if from <= d[i].version <= to {
        pairs := pairs + [Pair(i, target[i])];
      }
    }
    RescanCut(data, cut, target, to);
    assert d == Rescan(data, target, to);
  }

  /** The cut shadow rescans like the whole one. */
  lemma RescanCut(data: seq<Slot>, cut: seq<Slot>, target: seq<int>, to: int)
    requires cut == if |data| > |target| then data[..|target|] else data
    ensures Rescan(cut, target, to) == Rescan(data, target, to)
  {
  }

  /**
   * What `RescanPass` holds after the first `i` indices: those slots are
   * rescanned, the rest are still the cut shadow's, and the pairs are those
   * of the rescanned prefix.
   */
  predicate RescanInv(cut: seq<Slot>, target: seq<int>, from: int, to: int, i: nat, d: seq<Slot>, pairs: seq<Pair>)
    requires i <= |target| && |cut| <= |target|
  {
    && |d| == (if i <= |cut| then |cut| else i)
    && (forall j :: 0 <= j < i ==> d[j] == Rescan(cut, target, to)[j])
    && (forall j :: i <= j < |d| ==> d[j] == cut[j])
    && pairs == EmittedUpTo(Rescan(cut, target, to), from, to, i)
  }

  /** One iteration of `RescanPass` keeps `RescanInv`. */
  lemma RescanStep(cut: seq<Slot>, target: seq<int>, from: int, to: int, i: nat, d: seq<Slot>, pairs: seq<Pair>)
    requires from <= to && i < |target| && |cut| <= |target| && RescanInv(cut, target, from, to, i, d, pairs)
    ensures |d| <= i ==>
              RescanInv(cut, target, from, to, i + 1, d + [Slot(to, target[i])], pairs + [Pair(i, target[i])])
    ensures |d| > i && d[i].value != target[i] ==>
              RescanInv(cut, target, from, to, i + 1, d[i := Slot(to, target[i])], pairs + [Pair(i, target[i])])
    ensures |d| > i && d[i].value == target[i] ==>
              RescanInv(cut, target, from, to, i + 1, d,
                        pairs + (if from <= d[i].version <= to then [Pair(i, target[i])] else []))
  {
    var r := Rescan(cut, target, to);
    assert EmittedUpTo(r, from, to, i + 1)
        == pairs + (if InRange(r[i].version, from, to) then [Pair(i, r[i].value)] else []);
    if |d| <= i || d[i].value != target[i] {
      assert r[i] == Slot(to, target[i]);
      if |d| <= i {
        var d' := d + [Slot(to, target[i])];
        assert forall j :: 0 <= j < i ==> d'[j] == d[j];
      }
    } else {
      assert d[i] == cut[i];
      assert pairs + [] == pairs;
    }
  }

  /** The loop of `genDiff` when no rescan is due: the pairs of the slots whose version lies in `[from, to]`. */
  method CachedPass(data: seq<Slot>, from: int, to: int) returns (pairs: seq<Pair>)
    ensures pairs == Emitted(data, from, to)
  {
    pairs := [];
    for i := 0 to |data|
      invariant pairs == EmittedUpTo(data, from, to, i)
    {
      if from <= data[i].version <= to {
        pairs := pairs + [Pair(i, data[i].value)];
      }
    }
  }

  class SimpleArrayReplicator {
    /** Last version at which a scan answered with a delta. */
    var lastVersion: int
    /** Last version scanned. */
    var lastCheckVersion: int
    /** Last version at which the live length changed. */
    var lastLengthVersion: int
    /** The shadow: one slot per index. */
    var data: seq<Slot>
    /** The live array, owned by the application. */
    var target: seq<int>

    constructor (target: seq<int>)
      ensures this.target == target
      ensures |data| == |target| && Values(data) == target
      ensures forall i :: 0 <= i < |data| ==> data[i].version == 0
      ensures lastVersion == 0 && lastCheckVersion == 0 && lastLengthVersion == 0
    {
      this.target := target;
      lastVersion, lastCheckVersion, lastLengthVersion := 0, 0, 0;
      var d: seq<Slot> := [];
      for i := 0 to |target|
        invariant |d| == i
        invariant forall j :: 0 <= j < i ==> d[j] == Slot(0, target[j])
      {
        d := d + [Slot(0, target[i])];
      }
      data := d;
    }

    method GenDiff(from: int, to: int) returns (r: Option<SimpleDiff>)
      modifies this
      ensures target == old(target)
      ensures to < from ==> r == None && unchanged(this)
      ensures from <= to && old(lastCheckVersion) >= to && from > old(lastVersion) ==>
                r == None && unchanged(this)
      ensures from <= to && old(lastCheckVersion) >= to && from <= old(lastVersion) ==>
                unchanged(this) && r == CachedDiff(data, |data|, lastLengthVersion, from, to)
      ensures from <= to && old(lastCheckVersion) < to ==>
                && data == Rescan(old(data), target, to)
                && r == ScanDiffFixed(old(data), old(lastLengthVersion), target, from, to)
                && lastCheckVersion == to
                && lastLengthVersion == (if |old(data)| != |target| then to else old(lastLengthVersion))
                && lastVersion == (if r.Some? then to else old(lastVersion))
    {
      if to < from {
        return None;
      }
      var needScan := lastCheckVersion < to;
      if !needScan && from > lastVersion {
        return None;
      }
      if needScan {
        var lengthChanged := |data| != |target|;
        if lengthChanged {
          lastLengthVersion := to;
        }
        var d, pairs := RescanPass(data, target, from, to);
        data := d;
        lastCheckVersion := to;
        if lastLengthVersion < from && pairs == [] {
          return None;
        }
        lastVersion := to;
        return Some(SimpleDiff(|target|, pairs));
      } else {
        var pairs := CachedPass(data, from, to);
        if lastLengthVersion < from && pairs == [] {
          return None;
        }
        return Some(SimpleDiff(|data|, pairs));
      }
    }

    method ApplyDiff(d: Option<SimpleDiff>)
      modifies this
      ensures target == ApplyOpt(old(target), d)
      ensures data == old(data) && lastVersion == old(lastVersion)
      ensures lastCheckVersion == old(lastCheckVersion) && lastLengthVersion == old(lastLengthVersion)
    {
      if d.Some? {
        var length := d.value.length;
        var m := target;
        if length < |m| {
          m := m[..length];
        }
        var ps := d.value.pairs;
        ghost var start := m;
        for k := 0 to |ps|
          invariant PutAll(m, ps[k..]) == PutAll(start, ps)
        {
          assert ps[k..][1..] == ps[k + 1..];
          var p := ps[k];
          if p.index >= |m| {
            m := m + [p.value];
          } else {
            m := m[p.index := p.value];
          }
        }
        target := m;
      }
    }

    function GetVersion(): int
      reads this
    {
      lastVersion
    }
  }
}
