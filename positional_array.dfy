/**
 * ArrayReplicator: delta replication of an array of objects by position.
 * Each index of the live array has a nested replicator bound to the element at
 * that index; a delta is the live length followed by (index, nested delta)
 * pairs. Nested replicators are abstract: what one reports for a version
 * window is given by a function of the replicator and the window, and the
 * mirror's nested replicators are told what to apply through a list of
 * forwarded calls.
 */
module PositionalArray {
  import opened Common

  /** A nested replicator: its identity and the element it is bound to. */
  datatype Child = Child(id: nat, bound: Handle)

  /** Shadow entry: the version at which the entry was created and its replicator. */
  datatype Slot = Slot(version: int, index: nat, child: Child)

  /** One `(index, nested delta)` pair; a new element's delta may be the sentinel. */
  datatype Item = Item(index: nat, delta: Option<NestedDelta>)

  /** The delta `[length, index, delta, index, delta, ...]`. */
  datatype ObjectDiff = ObjectDiff(length: nat, items: seq<Item>)

  /** A nested delta handed to a nested replicator of the mirror. */
  datatype Forward = Forward(child: Child, delta: Option<NestedDelta>)

  /** What `genDiff(from, to)` of a nested replicator answers. */
  type NestedGen = (Child, int, int) -> Option<NestedDelta>

  function Max(a: nat, b: nat): nat
  {
    if a < b then b else a
  }

  /**
   * The shadow after a rescan at version `to`: each live index keeps its
   * replicator, rebound to the element now at that index; indices past the old
   * shadow get new replicators numbered from `base`, stamped `to`; a shadow
   * longer than the live array keeps its tail.
   */
  function Rebound(prev: seq<Slot>, t: seq<Handle>, to: int, base: nat): (r: seq<Slot>)
    ensures |r| == Max(|prev|, |t|)
  {
    seq(Max(|prev|, |t|), i requires 0 <= i < Max(|prev|, |t|) =>
      if i >= |t| then prev[i]
      else if i < |prev| then prev[i].(child := Child(prev[i].child.id, t[i]))
      else Slot(to, i, Child(base + (i - |prev|), t[i])))
  }

  /** Which entries a rescan treats as new: those past the old shadow. */
  function Fresh(n0: nat, n: nat): (r: seq<bool>)
    ensures |r| == n
  {
    seq(n, i requires 0 <= i < n => i >= n0)
  }

  /** Which entries a cached answer treats as new: those created after `from`. */
  function Newer(d: seq<Slot>, from: int): (r: seq<bool>)
    ensures |r| == |d|
  {
    seq(|d|, i requires 0 <= i < |d| => d[i].version > from)
  }

  /** The pair for one entry: a new entry is sent in full, another only when its replicator reports a change. */
  function ItemFor(c: Child, i: nat, full: bool, from: int, to: int, nested: NestedGen): seq<Item>
  {
    if full then [Item(i, nested(c, -1, to))]
    else
      match nested(c, from, to)
      case Some(x) => [Item(i, Some(x))]
      case None => []
  }

  /** The pairs for the first `n` entries, in index order. */
  function Items(d: seq<Slot>, full: seq<bool>, from: int, to: int, nested: NestedGen, n: nat): seq<Item>
    requires n <= |d| && |full| == |d|
  {
    if n == 0 then []
    else Items(d, full, from, to, nested, n - 1) + ItemFor(d[n - 1].child, n - 1, full[n - 1], from, to, nested)
  }

  function IndexSet(items: seq<Item>): set<nat>
  {
    set k | 0 <= k < |items| :: items[k].index
  }

  lemma IndexSetEmpty(items: seq<Item>)
    ensures IndexSet(items) == {} <==> items == []
  {
    if items != [] {
      assert items[0].index in IndexSet(items);
    }
  }

  predicate StrictlyIncreasing(items: seq<Item>)
  {
    forall a, b :: 0 <= a < b < |items| ==> items[a].index < items[b].index
  }

  /**
   * The pairs are in strictly increasing index order below `n`; the pair at an
   * index carries what that entry's replicator reports (over the whole history
   * for a new entry, since `from` otherwise, never the sentinel then); and an
   * index has a pair exactly when its entry is new or its replicator reports a
   * change.
   */
  ghost predicate ItemsProps(d: seq<Slot>, full: seq<bool>, from: int, to: int, nested: NestedGen, n: nat, items: seq<Item>)
    requires n <= |d| && |full| == |d|
  {
    && StrictlyIncreasing(items)
    && (forall k :: 0 <= k < |items| ==>
          var it := items[k];
          it.index < n
          && it.delta == nested(d[it.index].child, if full[it.index] then -1 else from, to)
          && (!full[it.index] ==> it.delta.Some?))
    && (forall j: nat :: j in IndexSet(items) <==> j < n && (full[j] || nested(d[j].child, from, to).Some?))
  }

  lemma IndexSetSnoc(items: seq<Item>, x: Item)
    ensures IndexSet(items + [x]) == IndexSet(items) + {x.index}
  {
    var cur := items + [x];
    forall j | j in IndexSet(cur) ensures j in IndexSet(items) + {x.index} {
      var k :| 0 <= k < |cur| && cur[k].index == j;
      if k < |items| { assert items[k] == cur[k]; }
    }
    forall j | j in IndexSet(items) ensures j in IndexSet(cur) {
      var k :| 0 <= k < |items| && items[k].index == j;
      assert cur[k] == items[k];
    }
    assert cur[|items|].index == x.index;
  }

  /** Adding the pair of entry `n - 1` keeps the properties. */
  lemma ItemsStep(d: seq<Slot>, full: seq<bool>, from: int, to: int, nested: NestedGen, n: nat, prev: seq<Item>)
    requires 0 < n <= |d| && |full| == |d|
    requires ItemsProps(d, full, from, to, nested, n - 1, prev)
    ensures ItemsProps(d, full, from, to, nested, n, prev + ItemFor(d[n - 1].child, n - 1, full[n - 1], from, to, nested))
  {
    var add := ItemFor(d[n - 1].child, n - 1, full[n - 1], from, to, nested);
    if add == [] {
      assert prev + add == prev;
    } else {
      var x := add[0];
      assert add == [x] && x.index == n - 1;
      IndexSetSnoc(prev, x);
      var cur := prev + [x];
      forall a, b | 0 <= a < b < |cur| ensures cur[a].index < cur[b].index {
        if b == |prev| { assert cur[a] == prev[a]; }
      }
    }
  }

  lemma {:induction false} ItemsShape(d: seq<Slot>, full: seq<bool>, from: int, to: int, nested: NestedGen, n: nat)
    requires n <= |d| && |full| == |d|
    ensures StrictlyIncreasing(Items(d, full, from, to, nested, n))
    ensures forall k :: 0 <= k < |Items(d, full, from, to, nested, n)| ==>
              var it := Items(d, full, from, to, nested, n)[k];
              it.index < n
              && it.delta == nested(d[it.index].child, if full[it.index] then -1 else from, to)
              && (!full[it.index] ==> it.delta.Some?)
    ensures forall j: nat :: j in IndexSet(Items(d, full, from, to, nested, n)) <==>
              j < n && (full[j] || nested(d[j].child, from, to).Some?)
  {
    ItemsHold(d, full, from, to, nested, n);
  }

  lemma {:induction false} ItemsHold(d: seq<Slot>, full: seq<bool>, from: int, to: int, nested: NestedGen, n: nat)
    requires n <= |d| && |full| == |d|
    ensures ItemsProps(d, full, from, to, nested, n, Items(d, full, from, to, nested, n))
  {
    if n > 0 {
      ItemsHold(d, full, from, to, nested, n - 1);
      ItemsStep(d, full, from, to, nested, n, Items(d, full, from, to, nested, n - 1));
    } else {
      IndexSetEmpty([]);
    }
  }

  /**
   * After a rescan every live index has a replicator bound to the element at
   * that index; a replicator that existed keeps its identity and its creation
   * version; the new ones are numbered consecutively from `base` and stamped
   * with the scan version.
   */
  lemma ReboundBindsLive(prev: seq<Slot>, t: seq<Handle>, to: int, base: nat)
    ensures forall i :: 0 <= i < |t| ==> Rebound(prev, t, to, base)[i].child.bound == t[i]
    ensures forall i :: 0 <= i < |prev| && i < |t| ==>
              Rebound(prev, t, to, base)[i].child.id == prev[i].child.id
              && Rebound(prev, t, to, base)[i].version == prev[i].version
    ensures forall i :: |prev| <= i < |t| ==>
              Rebound(prev, t, to, base)[i].child.id == base + (i - |prev|)
              && Rebound(prev, t, to, base)[i].version == to
    ensures forall i :: |t| <= i < |prev| ==> Rebound(prev, t, to, base)[i] == prev[i]
  {
  }

  /**
   * Sentinel-or-delta of a rescan, as `genDiff` returns it: the sentinel is
   * answered exactly when the live length equals the old shadow length and no
   * (rebound) replicator reports a change.
   */
  function ScanDiff(prev: seq<Slot>, t: seq<Handle>, from: int, to: int, nested: NestedGen, base: nat): (r: Option<ObjectDiff>)
    ensures r.None? <==>
              |prev| == |t| && forall j :: 0 <= j < |t| ==> nested(Child(prev[j].child.id, t[j]), from, to).None?
  {
    ScanQuiet(prev, t, from, to, nested, base);
    var s := Rebound(prev, t, to, base);
    var items := Items(s, Fresh(|prev|, |s|), from, to, nested, |t|);
    if items == [] && |t| == |s| then None else Some(ObjectDiff(|t|, items))
  }

  /**
   * Sentinel-or-delta when no rescan is due, the shadow reported as it is: the
   * sentinel is answered exactly when no entry was created after `from` and no
   * replicator reports a change.
   */
  function CachedDiff(d: seq<Slot>, from: int, to: int, nested: NestedGen): (r: Option<ObjectDiff>)
    ensures r.None? <==> forall j :: 0 <= j < |d| ==> d[j].version <= from && nested(d[j].child, from, to).None?
  {
    CachedQuiet(d, from, to, nested);
    var items := Items(d, Newer(d, from), from, to, nested, |d|);
    if items == [] then None else Some(ObjectDiff(|d|, items))
  }

  /** A rescan finds nothing to send and no length change exactly when the length is unchanged and nothing reports a change. */
  lemma ScanQuiet(prev: seq<Slot>, t: seq<Handle>, from: int, to: int, nested: NestedGen, base: nat)
    ensures var s := Rebound(prev, t, to, base);
            (Items(s, Fresh(|prev|, |s|), from, to, nested, |t|) == [] && |t| == |s|) <==>
              |prev| == |t| && forall j :: 0 <= j < |t| ==> nested(Child(prev[j].child.id, t[j]), from, to).None?
  {
    var s := Rebound(prev, t, to, base);
    var full := Fresh(|prev|, |s|);
    ItemsShape(s, full, from, to, nested, |t|);
    var items := Items(s, full, from, to, nested, |t|);
    IndexSetEmpty(items);
    if |prev| == |t| && forall j :: 0 <= j < |t| ==> nested(Child(prev[j].child.id, t[j]), from, to).None? {
      forall j: nat ensures j !in IndexSet(items) {
        if j < |t| {
          assert s[j].child == Child(prev[j].child.id, t[j]);
        }
      }
    }
    if items == [] && |t| == |s| {
      assert |prev| <= |t|;
      forall j | 0 <= j < |t| ensures j < |prev| && nested(Child(prev[j].child.id, t[j]), from, to).None? {
        assert j !in IndexSet(items);
      }
    }
  }

  /** A cached answer has no pair exactly when no entry is newer than `from` and none reports a change. */
  lemma CachedQuiet(d: seq<Slot>, from: int, to: int, nested: NestedGen)
    ensures Items(d, Newer(d, from), from, to, nested, |d|) == [] <==>
              forall j :: 0 <= j < |d| ==> d[j].version <= from && nested(d[j].child, from, to).None?
  {
    var items := Items(d, Newer(d, from), from, to, nested, |d|);
    ItemsShape(d, Newer(d, from), from, to, nested, |d|);
    IndexSetEmpty(items);
    if items == [] {
      forall j | 0 <= j < |d| ensures d[j].version <= from && nested(d[j].child, from, to).None? {
        assert j !in IndexSet(items);
      }
    }
  }

  /** The mirror's array, its shadow and its allocators for new objects and replicators. */
  datatype Mirror = Mirror(target: seq<Handle>, data: seq<Slot>, nextObject: nat, nextChild: nat)

  /** Outcome of applying pairs: `ok` is false when a pair named an entry that does not exist. */
  datatype Applied = Applied(ok: bool, mirror: Mirror, calls: seq<Forward>)

  /** Each live index has an entry bound to the element at that index. */
  predicate Lockstep(m: Mirror)
  {
    |m.data| == |m.target| && forall i :: 0 <= i < |m.target| ==> m.data[i].child.bound == m.target[i]
  }

  /**
   * An index at or past the live length appends a default-constructed object;
   * a replicator is created for it only if it landed at that index (a
   * replicator for an absent element cannot be created), and is appended to
   * the shadow.
   */
  function Place(m: Mirror, idx: nat, lv: int): Mirror
  {
    if idx < |m.target| then m
    else
      var h := m.nextObject;
      if idx == |m.target| then
        Mirror(m.target + [h], m.data + [Slot(lv, idx, Child(m.nextChild, h))], h + 1, m.nextChild + 1)
      else
        Mirror(m.target + [h], m.data, h + 1, m.nextChild)
  }

  /** Places each pair and forwards its delta to the entry at its index, stopping at a missing entry. */
  function PlaceAll(m: Mirror, items: seq<Item>, lv: int): Applied
    decreases |items|
  {
    if items == [] then Applied(true, m, [])
    else
      var m1 := Place(m, items[0].index, lv);
      if items[0].index >= |m1.data| then Applied(false, m1, [])
      else
        var rest := PlaceAll(m1, items[1..], lv);
        Applied(rest.ok, rest.mirror, [Forward(m1.data[items[0].index].child, items[0].delta)] + rest.calls)
  }

  /**
   * Placing only ever appends entries, so the entries already there survive,
   * and when no entry is missing each delta goes to the entry that ends at
   * its index.
   */
  lemma {:induction false} PlaceAllKeeps(m: Mirror, items: seq<Item>, lv: int)
    ensures var r := PlaceAll(m, items, lv);
            && |m.data| <= |r.mirror.data| && (forall i :: 0 <= i < |m.data| ==> r.mirror.data[i] == m.data[i])
            && (r.ok ==>
                  && |r.calls| == |items|
                  && forall k :: 0 <= k < |items| ==>
                       items[k].index < |r.mirror.data| && r.calls[k] == Forward(r.mirror.data[items[k].index].child, items[k].delta))
    decreases |items|
  {
    if items != [] {
      var m1 := Place(m, items[0].index, lv);
      if items[0].index < |m1.data| {
        PlaceAllKeeps(m1, items[1..], lv);
        var rest := PlaceAll(m1, items[1..], lv);
        forall k | 1 <= k < |items| ensures items[k] == items[1..][k - 1] {
        }
      }
    }
  }

  /**
   * `applyDiff` as written: a shorter length cuts the live array but not the
   * shadow, so every entry of the old shadow survives, past the new length
   * too, and a delta goes to whatever entry sits at its index.
   */
  function ApplyAsWritten(m: Mirror, d: ObjectDiff, lv: int): (r: Applied)
    ensures |m.data| <= |r.mirror.data| && forall i :: 0 <= i < |m.data| ==> r.mirror.data[i] == m.data[i]
    ensures r.ok ==>
              |r.calls| == |d.items| &&
              forall k :: 0 <= k < |d.items| ==>
                d.items[k].index < |r.mirror.data| && r.calls[k] == Forward(r.mirror.data[d.items[k].index].child, d.items[k].delta)
  {
    var t := if d.length < |m.target| then m.target[..d.length] else m.target;
    PlaceAllKeeps(m.(target := t), d.items, lv);
    PlaceAll(m.(target := t), d.items, lv)
  }

  /**
   * `applyDiff` with the shadow cut together with the live array: the
   * entries below the new length survive, and a delta goes to the entry that
   * ends at its index.
   */
  function ApplyFixed(m: Mirror, d: ObjectDiff, lv: int): (r: Applied)
    ensures forall i :: 0 <= i < |m.data| && i < d.length ==> i < |r.mirror.data| && r.mirror.data[i] == m.data[i]
    ensures r.ok ==>
              |r.calls| == |d.items| &&
              forall k :: 0 <= k < |d.items| ==>
                d.items[k].index < |r.mirror.data| && r.calls[k] == Forward(r.mirror.data[d.items[k].index].child, d.items[k].delta)
  {
    var t := if d.length < |m.target| then m.target[..d.length] else m.target;
    var s := if d.length < |m.data| then m.data[..d.length] else m.data;
    PlaceAllKeeps(m.(target := t, data := s), d.items, lv);
    PlaceAll(m.(target := t, data := s), d.items, lv)
  }

  /**
   * Placing increasing pairs that cover every index from the current length up
   * to `len` keeps the mirror in lockstep, ends at length `len`, keeps the
   * existing entries, and forwards each delta to the entry that ends up at its
   * index.
   */
  lemma {:induction false} PlaceAllKeepsLockstep(m: Mirror, items: seq<Item>, lv: int, len: nat)
    requires Lockstep(m) && |m.target| <= len
    requires StrictlyIncreasing(items)
    requires forall k :: 0 <= k < |items| ==> items[k].index < len
    requires forall j :: |m.target| <= j < len ==> j in IndexSet(items)
    ensures PlaceAll(m, items, lv).ok
    ensures Lockstep(PlaceAll(m, items, lv).mirror)
    ensures |PlaceAll(m, items, lv).mirror.target| == len
    ensures PlaceAll(m, items, lv).mirror.data[..|m.data|] == m.data
    ensures |PlaceAll(m, items, lv).calls| == |items|
    ensures forall k :: 0 <= k < |items| ==>
              PlaceAll(m, items, lv).calls[k]
              == Forward(PlaceAll(m, items, lv).mirror.data[items[k].index].child, items[k].delta)
    decreases |items|
  {
    if items == [] {
      assert IndexSet(items) == {};
      assert |m.target| !in IndexSet(items);
    } else {
      var it := items[0];
      var rest := items[1..];
      IndexSetFirst(items);
      if it.index >= |m.target| {
        assert |m.target| in IndexSet(items);
      }
      var m1 := Place(m, it.index, lv);
      PlaceKeeps(m, it.index, lv, len);
      PlaceAllKeepsLockstep(m1, rest, lv, len);
      var r := PlaceAll(m1, rest, lv);
      assert PlaceAll(m, items, lv) == Applied(r.ok, r.mirror, [Forward(m1.data[it.index].child, it.delta)] + r.calls);
      assert r.mirror.data[it.index] == r.mirror.data[..|m1.data|][it.index];
      forall k | 0 < k < |items|
        ensures PlaceAll(m, items, lv).calls[k] == Forward(r.mirror.data[items[k].index].child, items[k].delta)
      {
        assert items[k] == rest[k - 1];
      }
    }
  }

  /** What the rest of a strictly increasing list of pairs covers. */
  lemma IndexSetFirst(items: seq<Item>)
    requires items != [] && StrictlyIncreasing(items)
    ensures StrictlyIncreasing(items[1..])
    ensures forall j :: j in IndexSet(items) <==> j == items[0].index || j in IndexSet(items[1..])
    ensures forall j :: j in IndexSet(items[1..]) ==> j > items[0].index
  {
    var rest := items[1..];
    forall j | j in IndexSet(items) ensures j == items[0].index || j in IndexSet(rest) {
      var k :| 0 <= k < |items| && items[k].index == j;
      if k > 0 { assert rest[k - 1] == items[k]; }
    }
    forall j | j in IndexSet(rest) ensures j in IndexSet(items) && j > items[0].index {
      var k :| 0 <= k < |rest| && rest[k].index == j;
      assert items[k + 1] == rest[k];
    }
    forall a, b | 0 <= a < b < |rest| ensures rest[a].index < rest[b].index {
      assert rest[a] == items[a + 1] && rest[b] == items[b + 1];
    }
  }

  /** Placing at an index no further than the live length keeps the mirror in lockstep and its entries. */
  lemma PlaceKeeps(m: Mirror, idx: nat, lv: int, len: nat)
    requires Lockstep(m) && |m.target| <= len && idx < len && idx <= |m.target|
    ensures var m1 := Place(m, idx, lv);
            && Lockstep(m1) && |m1.target| <= len && m1.data[..|m.data|] == m.data
            && idx < |m1.data|
            && |m1.target| == (if idx < |m.target| then |m.target| else |m.target| + 1)
  {
  }

  /**
   * Round trip of a rescan delta, with the shadow cut together with the live
   * array: a mirror in lockstep, as long as the source's shadow was before the
   * scan, applies the delta without error, ends as long as the live array and
   * in lockstep, keeps its surviving replicators, and hands each pair's nested
   * delta to the replicator at that pair's index.
   */
  lemma FixedScanRoundTrip(m: Mirror, prev: seq<Slot>, t: seq<Handle>, from: int, to: int, nested: NestedGen, base: nat, lv: int)
    requires Lockstep(m) && |m.target| == |prev|
    requires ScanDiff(prev, t, from, to, nested, base).Some?
    ensures var d := ScanDiff(prev, t, from, to, nested, base).value;
            var a := ApplyFixed(m, d, lv);
            && a.ok && Lockstep(a.mirror) && |a.mirror.target| == |t|
            && (forall k :: 0 <= k < |d.items| ==> d.items[k].index < |t|)
            && (forall i :: 0 <= i < |t| && i < |prev| ==> a.mirror.data[i] == m.data[i])
            && |a.calls| == |d.items|
            && forall k :: 0 <= k < |d.items| ==>
                 a.calls[k] == Forward(a.mirror.data[d.items[k].index].child, d.items[k].delta)
  {
    var s := Rebound(prev, t, to, base);
    var full := Fresh(|prev|, |s|);
    ItemsShape(s, full, from, to, nested, |t|);
    var d := ScanDiff(prev, t, from, to, nested, base).value;
    var t0 := if d.length < |m.target| then m.target[..d.length] else m.target;
    var s0 := if d.length < |m.data| then m.data[..d.length] else m.data;
    var m0 := m.(target := t0, data := s0);
    assert Lockstep(m0);
    forall j | |t0| <= j < |t| ensures j in IndexSet(d.items) {
      assert full[j];
    }
    PlaceAllKeepsLockstep(m0, d.items, lv, |t|);
    var a := PlaceAll(m0, d.items, lv);
    forall i | 0 <= i < |t| && i < |prev| ensures a.mirror.data[i] == m.data[i] {
      assert a.mirror.data[i] == a.mirror.data[..|m0.data|][i];
    }
  }

  /**
   * The source cuts its shadow when the live array shrinks, the mirror as
   * written cuts only its live array: after the array shrinks from two
   * elements to one and then grows back to two, the mirror hands the new
   * element's delta to the replicator of the element that was removed, so the
   * mirror's new element is never updated.
   */
  lemma StaleReplicaAfterShrink()
    ensures var m0 := Mirror([10, 11], [Slot(0, 0, Child(0, 10)), Slot(0, 1, Child(1, 11))], 20, 2);
            var a1 := ApplyAsWritten(m0, ObjectDiff(1, []), 0);
            var a2 := ApplyAsWritten(a1.mirror, ObjectDiff(2, [Item(1, Some(NestedDelta([7])))]), 0);
            && a1.ok && a2.ok
            && a2.mirror.target == [10, 20]
            && a2.calls == [Forward(Child(1, 11), Some(NestedDelta([7])))]
            && a2.calls[0].child.bound != a2.mirror.target[1]
  {
    var m0 := Mirror([10, 11], [Slot(0, 0, Child(0, 10)), Slot(0, 1, Child(1, 11))], 20, 2);
    var a1 := ApplyAsWritten(m0, ObjectDiff(1, []), 0);
    assert a1.mirror == Mirror([10], m0.data, 20, 2);
    var items := [Item(1, Some(NestedDelta([7])))];
    var m1 := Place(a1.mirror, 1, 0);
    assert m1 == Mirror([10, 20], m0.data + [Slot(0, 1, Child(2, 20))], 21, 3);
    assert items[1..] == [];
  }

  /**
   * The same history with the shadow cut together with the live array: the
   * new element's delta reaches the replicator created for the new element.
   */
  lemma FixedAfterShrink()
    ensures var m0 := Mirror([10, 11], [Slot(0, 0, Child(0, 10)), Slot(0, 1, Child(1, 11))], 20, 2);
            var a1 := ApplyFixed(m0, ObjectDiff(1, []), 0);
            var a2 := ApplyFixed(a1.mirror, ObjectDiff(2, [Item(1, Some(NestedDelta([7])))]), 0);
            && a1.ok && a2.ok
            && a2.mirror.target == [10, 20]
            && a2.calls == [Forward(Child(2, 20), Some(NestedDelta([7])))]
            && a2.calls[0].child.bound == a2.mirror.target[1]
  {
    var m0 := Mirror([10, 11], [Slot(0, 0, Child(0, 10)), Slot(0, 1, Child(1, 11))], 20, 2);
    var a1 := ApplyFixed(m0, ObjectDiff(1, []), 0);
    assert a1.mirror == Mirror([10], m0.data[..1], 20, 2);
    var items := [Item(1, Some(NestedDelta([7])))];
    var m1 := Place(a1.mirror, 1, 0);
    assert m1 == Mirror([10, 20], m0.data[..1] + [Slot(0, 1, Child(2, 20))], 21, 3);
    assert items[1..] == [];
  }

  /** The diffs of `StaleReplicaAfterShrink` are what a source sends for that history. */
  lemma ShrinkThenGrowDiffs()
    ensures var nested: NestedGen := (c: Child, f: int, t: int) => if f == -1 then Some(NestedDelta([7])) else None;
            var s0 := [Slot(0, 0, Child(0, 10)), Slot(0, 1, Child(1, 11))];
            && ScanDiff(s0, [10], 0, 1, nested, 2) == Some(ObjectDiff(1, []))
            && ScanDiff(s0[..1], [10, 30], 1, 2, nested, 2) == Some(ObjectDiff(2, [Item(1, Some(NestedDelta([7])))]))
  {
    var nested: NestedGen := (c: Child, f: int, t: int) => if f == -1 then Some(NestedDelta([7])) else None;
    var s0 := [Slot(0, 0, Child(0, 10)), Slot(0, 1, Child(1, 11))];
    var r1 := Rebound(s0, [10], 1, 2);
    assert Items(r1, Fresh(2, 2), 0, 1, nested, 1) == [];
    var r2 := Rebound(s0[..1], [10, 30], 2, 2);
    assert r2[1] == Slot(2, 1, Child(2, 30));
    assert Items(r2, Fresh(1, 2), 1, 2, nested, 1) == [];
    assert Items(r2, Fresh(1, 2), 1, 2, nested, 2) == [Item(1, Some(NestedDelta([7])))];
  }

  /**
   * As written, a rescan compares the live length only with the shadow and
   * diffs every entry it did not create itself from `from`, even one an
   * earlier rescan, answered to another observer, created after `from`. An
   * observer synced at 1 therefore gets the sentinel from `genDiff(1, 3)`
   * when the nested replicators report nothing since 1, both when a shrink to
   * `[10, 11]` and when the creation of entry 1 at version 2 was already
   * absorbed, while the cached branch sends that entry in full.
   */
  lemma LaggingMirrorMissed()
    ensures var nested: NestedGen := (c: Child, f: int, t: int) => if f == -1 then Some(NestedDelta([7])) else None;
            var cut := [Slot(0, 0, Child(0, 10)), Slot(0, 1, Child(1, 11))];
            var grown := [Slot(0, 0, Child(0, 10)), Slot(2, 1, Child(1, 11))];
            && ScanDiff(cut, [10, 11], 1, 3, nested, 2) == None
            && ScanDiff(grown, [10, 11], 1, 3, nested, 2) == None
            && CachedDiff(grown, 1, 2, nested) == Some(ObjectDiff(2, [Item(1, Some(NestedDelta([7])))]))
  {
    var nested: NestedGen := (c: Child, f: int, t: int) => if f == -1 then Some(NestedDelta([7])) else None;
    var cut := [Slot(0, 0, Child(0, 10)), Slot(0, 1, Child(1, 11))];
    var grown := [Slot(0, 0, Child(0, 10)), Slot(2, 1, Child(1, 11))];
    assert Rebound(cut, [10, 11], 3, 2) == cut;
    assert Items(cut, Fresh(2, 2), 1, 3, nested, 1) == [];
    assert Items(cut, Fresh(2, 2), 1, 3, nested, 2) == [];
    assert Rebound(grown, [10, 11], 3, 2) == grown;
    assert Items(grown, Fresh(2, 2), 1, 3, nested, 1) == [];
    assert Items(grown, Fresh(2, 2), 1, 3, nested, 2) == [];
    assert Items(grown, Newer(grown, 1), 1, 2, nested, 1) == [];
    assert Items(grown, Newer(grown, 1), 1, 2, nested, 2) == [Item(1, Some(NestedDelta([7])))];
  }

  /**
   * The rescan loop of `genDiff`: rebinds or creates the replicator of every
   * live index and collects the pairs, a new entry in full, an old one when its
   * replicator reports a change.
   */
  method ScanPass(prev: seq<Slot>, t: seq<Handle>, from: int, to: int, nested: NestedGen, base: nat)
    returns (d: seq<Slot>, items: seq<Item>, next: nat)
    ensures d == Rebound(prev, t, to, base)
    ensures items == Items(d, Fresh(|prev|, |d|), from, to, nested, |t|)
    ensures next == base + (|d| - |prev|)
  {
    ghost var s := Rebound(prev, t, to, base);
    ghost var full := Fresh(|prev|, |s|);
    d, items, next := prev, [], base;
    for i := 0 to |t|
      invariant |d| == Max(|prev|, i)
      invariant forall j :: 0 <= j < i ==> d[j] == s[j]
      invariant forall j :: i <= j < |d| ==> d[j] == prev[j]
      invariant next == base + (|d| - |prev|)
      invariant items == Items(s, full, from, to, nested, i)
    {
      if |d| <= i {
        d := d + [Slot(to, |d|, Child(next, t[i]))];
        next := next + 1;
        items := items + [Item(i, nested(d[i].child, -1, to))];
      } else {
        var c := d[i].child;
        if c.bound != t[i] {
          d := d[i := d[i].(child := Child(c.id, t[i]))];
        }
        var diff := nested(d[i].child, from, to);
        if diff.Some? {
          items := items + [Item(i, diff)];
        }
      }
    }
    assert d == s;
  }

  /** The loop of `genDiff` when no rescan is due: entries created after `from` in full, others when changed. */
  method CachedPass(d: seq<Slot>, from: int, to: int, nested: NestedGen) returns (items: seq<Item>)
    ensures items == Items(d, Newer(d, from), from, to, nested, |d|)
  {
    items := [];
    for i := 0 to |d|
      invariant items == Items(d, Newer(d, from), from, to, nested, i)
    {
      if d[i].version > from {
        items := items + [Item(i, nested(d[i].child, -1, to))];
      } else {
        var diff := nested(d[i].child, from, to);
        if diff.Some? {
          items := items + [Item(i, diff)];
        }
      }
    }
  }

  /** `PlaceAll` over a suffix, unfolded once. */
  lemma PlaceAllSuffix(m: Mirror, items: seq<Item>, k: nat, lv: int)
    requires k < |items|
    ensures var m1 := Place(m, items[k].index, lv);
            PlaceAll(m, items[k..], lv)
            == if items[k].index >= |m1.data| then Applied(false, m1, [])
               else var a := PlaceAll(m1, items[k + 1..], lv);
                    Applied(a.ok, a.mirror, [Forward(m1.data[items[k].index].child, items[k].delta)] + a.calls)
  {
    assert items[k..][0] == items[k];
    assert items[k..][1..] == items[k + 1..];
  }

  /** The placement loop of `applyDiff`: places each pair and collects the forwarded deltas. */
  method PlacePass(m0: Mirror, items: seq<Item>, lv: int) returns (ok: bool, calls: seq<Forward>, m: Mirror)
    ensures PlaceAll(m0, items, lv) == Applied(ok, m, calls)
  {
    ok, calls, m := true, [], m0;
    var k := 0;
    assert items[0..] == items;
    while k < |items| && ok
      invariant 0 <= k <= |items|
      invariant ok ==> var a := PlaceAll(m, items[k..], lv);
                       PlaceAll(m0, items, lv) == Applied(a.ok, a.mirror, calls + a.calls)
      invariant !ok ==> PlaceAll(m0, items, lv) == Applied(false, m, calls)
      decreases |items| - k + (if ok then 1 else 0)
    {
      PlaceAllSuffix(m, items, k, lv);
      ghost var before := m;
      var idx := items[k].index;
      if idx >= |m.target| {
        var h := m.nextObject;
        if idx == |m.target| {
          m := Mirror(m.target + [h], m.data + [Slot(lv, idx, Child(m.nextChild, h))], h + 1, m.nextChild + 1);
        } else {
          m := Mirror(m.target + [h], m.data, h + 1, m.nextChild);
        }
      }
      assert m == Place(before, idx, lv);
      if idx >= |m.data| {
        ok := false;
        assert calls + [] == calls;
      } else {
        ghost var a := PlaceAll(m, items[k + 1..], lv);
        assert calls + ([Forward(m.data[idx].child, items[k].delta)] + a.calls)
               == (calls + [Forward(m.data[idx].child, items[k].delta)]) + a.calls;
        calls := calls + [Forward(m.data[idx].child, items[k].delta)];
        k := k + 1;
      }
    }
    if ok {
      assert items[k..] == [];
      assert calls + [] == calls;
    }
  }

  class ArrayReplicator {
    /** The shadow: one entry per index, each with its nested replicator. */
    var data: seq<Slot>
    /** The live array, owned by the application. */
    var target: seq<Handle>
    /** Last version at which a delta was answered. */
    var lastVersion: int
    /** Last version scanned. */
    var lastCheckVersion: int
    /** Identity of the next nested replicator created. */
    var nextChild: nat
    /** The next object the mirror default-constructs. */
    var nextObject: nat

    /** Creates one replicator per element, stamped with version 0. */
    constructor (target: seq<Handle>, firstFresh: nat)
      ensures this.target == target && Lockstep(Mirror(this.target, data, nextObject, nextChild))
      ensures forall i :: 0 <= i < |data| ==> data[i] == Slot(0, i, Child(i, target[i]))
      ensures lastVersion == 0 && lastCheckVersion == 0
      ensures nextChild == |target| && nextObject == firstFresh
    {
      this.target := target;
      lastVersion, lastCheckVersion := 0, 0;
      nextObject := firstFresh;
      var d: seq<Slot> := [];
      for i := 0 to |target|
        invariant |d| == i
        invariant forall j :: 0 <= j < i ==> d[j] == Slot(0, j, Child(j, target[j]))
      {
        d := d + [Slot(0, |d|, Child(|d|, target[i]))];
      }
      data := d;
      nextChild := |target|;
    }

    method GenDiff(from: int, to: int, nested: NestedGen) returns (r: Option<ObjectDiff>)
      modifies this
      ensures target == old(target) && nextObject == old(nextObject)
      ensures to < from ==> r == None && unchanged(this)
      ensures from <= to && |target| == 0 && |old(data)| == 0 ==> r == None && unchanged(this)
      ensures from <= to && (|target| > 0 || |old(data)| > 0)
              && old(lastCheckVersion) >= to && from > old(lastVersion) ==>
                r == None && unchanged(this)
      ensures from <= to && (|target| > 0 || |old(data)| > 0)
              && old(lastCheckVersion) >= to && from <= old(lastVersion) ==>
                && r == CachedDiff(old(data), from, to, nested)
                && data == (if r.Some? && |old(data)| > |target| then old(data)[..|target|] else old(data))
                && lastCheckVersion == old(lastCheckVersion) && nextChild == old(nextChild)
                && lastVersion == (if r.Some? then to else old(lastVersion))
      ensures from <= to && (|target| > 0 || |old(data)| > 0) && old(lastCheckVersion) < to ==>
                var s := Rebound(old(data), target, to, old(nextChild));
                && r == ScanDiff(old(data), target, from, to, nested, old(nextChild))
                && data == (if r.Some? then s[..|target|] else s)
                && nextChild == old(nextChild) + (|s| - |old(data)|)
                && lastCheckVersion == to
                && lastVersion == (if r.Some? then to else old(lastVersion))
    {
      if to < from {
        return None;
      }
      if |target| == 0 && |data| == 0 {
        return None;
      }
      var needScan := lastCheckVersion < to;
      if !needScan && from > lastVersion {
        return None;
      }
      var items: seq<Item>;
      var length: nat;
      var d := data;
      if needScan {
        var next;
        d, items, next := ScanPass(data, target, from, to, nested, nextChild);
        length := |target|;
        nextChild := next;
        lastCheckVersion := to;
      } else {
        items := CachedPass(d, from, to, nested);
        length := |d|;
      }
      if items == [] && length == |d| {
        data := d;
        return None;
      }
      lastVersion := to;
      if |d| > |target| {
        d := d[..|target|];
      }
      data := d;
      return Some(ObjectDiff(length, items));
    }

    /**
     * Mirror side: cuts the live array and its shadow to the delta's length,
     * then places each pair and forwards its nested delta; `ok` is false when a
     * pair names an entry the shadow lacks (the source throws there, keeping
     * what it already changed). The source cuts only the live array; see
     * `ApplyAsWritten` and `StaleReplicaAfterShrink`.
     */
    method ApplyDiff(d: Option<ObjectDiff>) returns (ok: bool, calls: seq<Forward>)
      modifies this
      ensures lastVersion == old(lastVersion) && lastCheckVersion == old(lastCheckVersion)
      ensures d.None? ==> ok && calls == [] && unchanged(this)
      ensures d.Some? ==>
                var a := ApplyFixed(Mirror(old(target), old(data), old(nextObject), old(nextChild)), d.value, old(lastVersion));
                && ok == a.ok && calls == a.calls
                && Mirror(target, data, nextObject, nextChild) == a.mirror
    {
      ok, calls := true, [];
      if d.None? {
        return;
      }
      var length := d.value.length;
      var items := d.value.items;
      var t := target;
      if length < |t| {
        t := t[..length];
      }
      var s := data;
      if length < |s| {
        s := s[..length];
      }
      var m := Mirror(t, s, nextObject, nextChild);
      ok, calls, m := PlacePass(m, items, lastVersion);
      target, data, nextObject, nextChild := m.target, m.data, m.nextObject, m.nextChild;
    }

    function GetVersion(): int
      reads this
    {
      lastVersion
    }
  }
}
