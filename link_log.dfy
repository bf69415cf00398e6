/**
 * The action log of ArrayLinkReplicator and what an observer does with a
 * delta cut from it: the version search, the concatenation of the entries an
 * observer has not seen, the trailing `Update` block, and the mirror's replay
 * of the result.
 */
module LinkLog {
  import opened Common
  import opened Actions
  import opened LinkModel

  /** One log entry: the commands of one rescan and the version it ran at. */
  datatype LogEntry = LogEntry(version: int, actions: seq<Action>)

  /** A nested delta handed to the nested replicator bound to `element`. */
  datatype Call = Call(element: Handle, delta: NestedDelta)

  /** What `genDiff(from, to)` of the nested replicator bound to an element answers. */
  type NestedGen = (Handle, int, int) -> Option<NestedDelta>

  predicate Ordered(log: seq<LogEntry>)
  {
    forall a, b :: 0 <= a < b < |log| ==> log[a].version < log[b].version
  }

  /** The position of the first entry whose version is at least `v`; the log's length when there is none. */
  function FirstAtLeast(log: seq<LogEntry>, v: int): (r: nat)
    ensures r <= |log|
  {
    if log == [] || log[0].version >= v then 0 else 1 + FirstAtLeast(log[1..], v)
  }

  /**
   * Every entry before `FirstAtLeast` is older than `v`; in an ordered log
   * every entry from it on is at least `v`.
   */
  lemma {:induction false} FirstAtLeastIsLeast(log: seq<LogEntry>, v: int)
    ensures var r := FirstAtLeast(log, v);
            && r <= |log|
            && (forall k :: 0 <= k < r ==> log[k].version < v)
            && (r < |log| ==> log[r].version >= v)
            && (Ordered(log) ==> forall k :: r <= k < |log| ==> log[k].version >= v)
  {
    var r := FirstAtLeast(log, v);
    if log != [] && log[0].version < v {
      FirstAtLeastIsLeast(log[1..], v);
      forall k | 0 <= k < r ensures log[k].version < v {
        if k > 0 {
          assert log[k] == log[1..][k - 1];
        }
      }
    }
    if Ordered(log) {
      forall k | r <= k < |log| ensures log[k].version >= v {
        if k > r {
          assert log[r].version < log[k].version;
        }
      }
    }
  }

  /** Only one position splits the log into entries older than `v` and entries that are not. */
  lemma {:induction false} FirstAtLeastUnique(log: seq<LogEntry>, v: int, r: nat)
    requires r <= |log|
    requires forall k :: 0 <= k < r ==> log[k].version < v
    requires forall k :: r <= k < |log| ==> log[k].version >= v
    ensures r == FirstAtLeast(log, v)
  {
    if r > 0 {
      assert log[0].version < v;
      forall k | 0 <= k < r - 1 ensures log[1..][k].version < v {
        assert log[1..][k] == log[k + 1];
      }
      forall k | r - 1 <= k < |log[1..]| ensures log[1..][k].version >= v {
        assert log[1..][k] == log[k + 1];
      }
      FirstAtLeastUnique(log[1..], v, r - 1);
    }
  }

  /** Where the answer to an observer at `from` starts: the first entry newer than `from`, or the whole log when `from <= 0`. */
  function FromIndex(log: seq<LogEntry>, from: int): nat
  {
    if from > 0 then FirstAtLeast(log, from + 1) else 0
  }

  /** The commands of the listed entries, oldest first. */
  function Flatten(log: seq<LogEntry>): seq<Action>
  {
    if log == [] then [] else log[0].actions + Flatten(log[1..])
  }

  lemma {:induction false} FlattenSnoc(log: seq<LogEntry>, e: LogEntry)
    ensures Flatten(log + [e]) == Flatten(log) + e.actions
  {
    if log == [] {
      assert log + [e] == [e];
      assert [e][1..] == [];
    } else {
      assert (log + [e])[0] == log[0] && (log + [e])[1..] == log[1..] + [e];
      FlattenSnoc(log[1..], e);
    }
  }

  function Concat(ss: seq<seq<Entry>>): seq<Entry>
  {
    if ss == [] then [] else ss[0] + Concat(ss[1..])
  }

  /** The shadow as it was before log entry `k`, or `cur` when `k` is past the log. */
  function At(before: seq<seq<Entry>>, cur: seq<Entry>, k: nat): seq<Entry>
  {
    if k < |before| then before[k] else cur
  }

  /**
   * `before[k]` is the shadow before log entry `k`, `created[k]` the entries
   * that entry's rescan created, and each entry's commands, given those
   * entries, take the shadow to what it was before the next entry; after the
   * last one the shadow is `cur`.
   */
  predicate Chained(log: seq<LogEntry>, before: seq<seq<Entry>>, created: seq<seq<Entry>>, cur: seq<Entry>)
  {
    && |before| == |log| && |created| == |log|
    && forall k :: 0 <= k < |log| ==>
         && NoUpdate(log[k].actions)
         && |created[k]| == InsertCount(log[k].actions)
         && Replay(before[k], log[k].actions, created[k]) == Some(At(before, cur, k + 1))
  }

  /** Logging a rescan that took the shadow from `prev` to `cur` keeps the log chained. */
  lemma ChainedExtend(log: seq<LogEntry>, before: seq<seq<Entry>>, created: seq<seq<Entry>>,
                      prev: seq<Entry>, cur: seq<Entry>, e: LogEntry, ne: seq<Entry>)
    requires Chained(log, before, created, prev)
    requires NoUpdate(e.actions) && |ne| == InsertCount(e.actions)
    requires Replay(prev, e.actions, ne) == Some(cur)
    ensures Chained(log + [e], before + [prev], created + [ne], cur)
  {
    var log', before', created' := log + [e], before + [prev], created + [ne];
    forall k | 0 <= k < |log'|
      ensures && NoUpdate(log'[k].actions)
              && |created'[k]| == InsertCount(log'[k].actions)
              && Replay(before'[k], log'[k].actions, created'[k]) == Some(At(before', cur, k + 1))
    {
      if k < |log| {
        assert log'[k] == log[k] && before'[k] == before[k] && created'[k] == created[k];
        assert At(before', cur, k + 1) == At(before, prev, k + 1);
      }
    }
  }

  /** A log holding a single `Clear` is chained from any shadow to the empty one. */
  lemma ChainedClear(prev: seq<Entry>, v: int)
    ensures Chained([LogEntry(v, [Clear])], [prev], [[]], [])
  {
    assert [Clear][1..] == [];
    assert Replay(prev, [Clear], []) == Some([]);
  }

  /** Appending an entry newer than every logged one keeps the log ordered. */
  lemma OrderedExtend(log: seq<LogEntry>, e: LogEntry)
    requires Ordered(log)
    requires forall k :: 0 <= k < |log| ==> log[k].version < e.version
    ensures Ordered(log + [e])
  {
  }

  /**
   * An observer whose shadow is the one before entry `k` catches up to the
   * current shadow by replaying the concatenated commands of entries `k`
   * onwards.
   */
  lemma {:induction false} CatchUp(log: seq<LogEntry>, before: seq<seq<Entry>>, created: seq<seq<Entry>>, cur: seq<Entry>, k: nat)
    requires Chained(log, before, created, cur) && k <= |log|
    ensures NoUpdate(Flatten(log[k..]))
    ensures |Concat(created[k..])| == InsertCount(Flatten(log[k..]))
    ensures Replay(At(before, cur, k), Flatten(log[k..]), Concat(created[k..])) == Some(cur)
    decreases |log| - k
  {
    if k == |log| {
      assert log[k..] == [] && created[k..] == [];
    } else {
      CatchUp(log, before, created, cur, k + 1);
      assert log[k..][0] == log[k] && log[k..][1..] == log[k + 1..];
      assert created[k..][0] == created[k] && created[k..][1..] == created[k + 1..];
      var a1 := log[k].actions;
      var a2 := Flatten(log[k + 1..]);
      assert Flatten(log[k..]) == a1 + a2;
      assert Concat(created[k..]) == created[k] + Concat(created[k + 1..]);
      assert NoUpdate(a1 + a2) by {
        forall j | 0 <= j < |a1 + a2| ensures !(a1 + a2)[j].Update? {
          if j >= |a1| {
            assert (a1 + a2)[j] == a2[j - |a1|];
          }
        }
      }
      InsertCountAppend(a1, a2);
      ReplayAppend(At(before, cur, k), a1, a2, created[k], Concat(created[k + 1..]));
    }
  }

  /**
   * The `from` the loop over the shadow hands to element `n - 1`: it drops to
   * 0 at the first element stamped after `from` and stays there.
   */
  function StickyFrom(d: seq<Entry>, from: int, n: nat): int
    requires n <= |d|
  {
    if n == 0 then from
    else
      var f := StickyFrom(d, from, n - 1);
      if d[n - 1].version > f then 0 else f
  }

  /** Elements from the first one stamped after `from` onwards are diffed from 0, all earlier ones from `from`. */
  lemma {:induction false} StickyFromMeaning(d: seq<Entry>, from: int, n: nat)
    requires n <= |d|
    ensures StickyFrom(d, from, n) == if exists j :: 0 <= j < n && d[j].version > from then 0 else from
  {
    if n > 0 {
      StickyFromMeaning(d, from, n - 1);
      if exists j :: 0 <= j < n - 1 && d[j].version > from {
        var j :| 0 <= j < n - 1 && d[j].version > from;
        assert StickyFrom(d, from, n - 1) == 0;
        if d[n - 1].version > 0 {
        }
      } else if d[n - 1].version > from {
        assert StickyFrom(d, from, n) == 0;
      } else {
        forall j | 0 <= j < n ensures d[j].version <= from {
          if j < n - 1 {
            assert !(0 <= j < n - 1 && d[j].version > from);
          }
        }
      }
    }
  }

  /**
   * The `(index, delta)` pairs of the first `n` shadow entries whose nested
   * replicator reports a change: in increasing position order, each carrying
   * the nested delta of the element at its position, one for every element
   * that reports a change.
   */
  function UpdateItems(d: seq<Entry>, from: int, to: int, nested: NestedGen, n: nat): (r: seq<UpdateItem>)
    requires n <= |d|
    ensures UpdateProps(d, from, to, nested, n, r)
  {
    if n == 0 then []
    else
      var prev := UpdateItems(d, from, to, nested, n - 1);
      UpdateStep(d, from, to, nested, n, prev);
      prev
      + match nested(d[n - 1].bound, StickyFrom(d, from, n), to)
        case None => []
        case Some(x) => [UpdateItem(n - 1, x)]
  }

  /**
   * The pairs come in increasing position order; each carries the nested
   * delta of the element at its position, and every element whose nested
   * replicator reports a change has a pair.
   */
  ghost predicate UpdateProps(d: seq<Entry>, from: int, to: int, nested: NestedGen, n: nat, items: seq<UpdateItem>)
    requires n <= |d|
  {
    UpdatesSorted(items) && UpdatesSound(d, from, to, nested, n, items) && UpdatesComplete(d, from, to, nested, n, items)
  }

  ghost predicate UpdatesSorted(items: seq<UpdateItem>)
  {
    forall a, b :: 0 <= a < b < |items| ==> items[a].index < items[b].index
  }

  ghost predicate UpdatesSound(d: seq<Entry>, from: int, to: int, nested: NestedGen, n: nat, items: seq<UpdateItem>)
    requires n <= |d|
  {
    forall k :: 0 <= k < |items| ==>
      items[k].index < n
      && nested(d[items[k].index].bound, StickyFrom(d, from, items[k].index + 1), to) == Some(items[k].delta)
  }

  ghost predicate UpdatesComplete(d: seq<Entry>, from: int, to: int, nested: NestedGen, n: nat, items: seq<UpdateItem>)
    requires n <= |d|
  {
    forall i :: 0 <= i < n && nested(d[i].bound, StickyFrom(d, from, i + 1), to).Some? ==>
      exists k :: 0 <= k < |items| && items[k].index == i
  }

  /** Adding the pair of element `n - 1`, if any, keeps the properties. */
  lemma UpdateStep(d: seq<Entry>, from: int, to: int, nested: NestedGen, n: nat, prev: seq<UpdateItem>)
    requires 0 < n <= |d| && UpdateProps(d, from, to, nested, n - 1, prev)
    ensures var add := match nested(d[n - 1].bound, StickyFrom(d, from, n), to)
                       case None => []
                       case Some(x) => [UpdateItem(n - 1, x)];
            UpdateProps(d, from, to, nested, n, prev + add)
  {
    match nested(d[n - 1].bound, StickyFrom(d, from, n), to)
    case None =>
      UpdateSkip(d, from, to, nested, n, prev);
      assert prev + [] == prev;
    case Some(x) =>
      UpdateAddSorted(d, from, to, nested, n, prev, x);
      UpdateAddSound(d, from, to, nested, n, prev, x);
      UpdateAddComplete(d, from, to, nested, n, prev, x);
  }

  /** Element `n - 1` reports nothing: the pairs so far already cover position `n - 1`. */
  lemma UpdateSkip(d: seq<Entry>, from: int, to: int, nested: NestedGen, n: nat, prev: seq<UpdateItem>)
    requires 0 < n <= |d| && UpdateProps(d, from, to, nested, n - 1, prev)
    requires nested(d[n - 1].bound, StickyFrom(d, from, n), to).None?
    ensures UpdateProps(d, from, to, nested, n, prev)
  {
  }

  /** The pair of element `n - 1` goes after every earlier pair. */
  lemma UpdateAddSorted(d: seq<Entry>, from: int, to: int, nested: NestedGen, n: nat, prev: seq<UpdateItem>, x: NestedDelta)
    requires 0 < n <= |d| && UpdatesSorted(prev) && UpdatesSound(d, from, to, nested, n - 1, prev)
    ensures UpdatesSorted(prev + [UpdateItem(n - 1, x)])
  {
    var items := prev + [UpdateItem(n - 1, x)];
    forall a, b | 0 <= a < b < |items| ensures items[a].index < items[b].index {
      assert items[a] == prev[a];
      if b < |prev| {
        assert items[b] == prev[b];
      }
    }
  }

  /** The pair of element `n - 1` carries what that element reports. */
  lemma UpdateAddSound(d: seq<Entry>, from: int, to: int, nested: NestedGen, n: nat, prev: seq<UpdateItem>, x: NestedDelta)
    requires 0 < n <= |d| && UpdatesSound(d, from, to, nested, n - 1, prev)
    requires nested(d[n - 1].bound, StickyFrom(d, from, n), to) == Some(x)
    ensures UpdatesSound(d, from, to, nested, n, prev + [UpdateItem(n - 1, x)])
  {
    var items := prev + [UpdateItem(n - 1, x)];
    forall k | 0 <= k < |items|
      ensures items[k].index < n
      ensures nested(d[items[k].index].bound, StickyFrom(d, from, items[k].index + 1), to) == Some(items[k].delta)
    {
      if k < |prev| {
        assert items[k] == prev[k];
      }
    }
  }

  /** With the pair of element `n - 1`, every reporting position below `n` is covered. */
  lemma UpdateAddComplete(d: seq<Entry>, from: int, to: int, nested: NestedGen, n: nat, prev: seq<UpdateItem>, x: NestedDelta)
    requires 0 < n <= |d| && UpdatesComplete(d, from, to, nested, n - 1, prev)
    ensures UpdatesComplete(d, from, to, nested, n, prev + [UpdateItem(n - 1, x)])
  {
    var items := prev + [UpdateItem(n - 1, x)];
    forall i | 0 <= i < n && nested(d[i].bound, StickyFrom(d, from, i + 1), to).Some?
      ensures exists k :: 0 <= k < |items| && items[k].index == i
    {
      if i < n - 1 {
        var k :| 0 <= k < |prev| && prev[k].index == i;
        assert items[k] == prev[k];
      } else {
        assert items[|prev|].index == i;
      }
    }
  }

  /** The trailing `Update` command, left out when there is nothing to update. */
  function UpdateBlock(items: seq<UpdateItem>): seq<Action>
  {
    if items == [] then [] else [Update(items)]
  }

  /**
   * The answer to an observer whose shadow is the one before entry `k`:
   * replaying it on that shadow yields the source's current shadow.
   */
  lemma AnswerReplays(log: seq<LogEntry>, before: seq<seq<Entry>>, created: seq<seq<Entry>>, cur: seq<Entry>, k: nat, items: seq<UpdateItem>)
    requires Chained(log, before, created, cur) && k <= |log|
    ensures Replay(At(before, cur, k), Flatten(log[k..]) + UpdateBlock(items), Concat(created[k..])) == Some(cur)
  {
    CatchUp(log, before, created, cur, k);
    var ins := Concat(created[k..]);
    assert ins + [] == ins;
    ReplayAppend(At(before, cur, k), Flatten(log[k..]), UpdateBlock(items), ins, []);
  }

  /**
   * Once an empty live array has replaced the log with a single `Clear` at
   * `v`, every observer from before `v` is answered exactly `[Clear]`,
   * whatever history preceded it.
   */
  lemma {:induction false} ClearCollapse(v: int, from: int, to: int, nested: NestedGen)
    requires from < v
    ensures var log := [LogEntry(v, [Clear])];
            Flatten(log[FromIndex(log, from)..]) + UpdateBlock(UpdateItems([], from, to, nested, 0)) == [Clear]
  {
    var log := [LogEntry(v, [Clear])];
    assert FromIndex(log, from) == 0;
    assert log[0..] == log && log[1..] == [];
    assert Flatten(log) == [Clear] + Flatten([]);
  }

  // ---------------------------------------------------------------------------
  // The mirror side of `applyDiff`.
  // ---------------------------------------------------------------------------

  /** The entries an `Insert` creates on the mirror: default-constructed objects `base`, `base + 1`, ... */
  function FreshRun(idx: seq<nat>, lv: int, base: nat): (r: seq<Entry>)
    ensures |r| == |idx|
  {
    seq(|idx|, j requires 0 <= j < |idx| => Entry(lv, idx[j], base + j))
  }

  /** Every entry the mirror creates while replaying `acts`, in creation order, stamped `lv`. */
  function Created(acts: seq<Action>, lv: int, base: nat): (r: seq<Entry>)
    ensures |r| == InsertCount(acts)
    decreases |acts|
  {
    if acts == [] then []
    else
      match acts[0]
      case Insert(idx) => FreshRun(idx, lv, base) + Created(acts[1..], lv, base + |idx|)
      case Update(_) => []
      case _ => Created(acts[1..], lv, base)
  }

  /** The mirror hands out consecutive fresh objects: the `j`-th created entry is bound to `base + j`. */
  lemma {:induction false} CreatedHandles(acts: seq<Action>, lv: int, base: nat)
    ensures forall j :: 0 <= j < |Created(acts, lv, base)| ==> Created(acts, lv, base)[j].bound == base + j
    decreases |acts|
  {
    if acts != [] {
      match acts[0]
      case Insert(idx) =>
        CreatedHandles(acts[1..], lv, base + |idx|);
        var run: seq<Entry> := FreshRun(idx, lv, base);
        var rest: seq<Entry> := Created(acts[1..], lv, base + |idx|);
        forall j | 0 <= j < |run + rest| ensures (run + rest)[j].bound == base + j {
          if j >= |run| {
            assert (run + rest)[j] == rest[j - |run|];
          }
        }
      case Update(_) =>
      case Delete(_) =>
        CreatedHandles(acts[1..], lv, base);
      case Move(_) =>
        CreatedHandles(acts[1..], lv, base);
      case Clear =>
        CreatedHandles(acts[1..], lv, base);
    }
  }

  /** One step of the mirror's replay over an `Insert`: the first entries it creates are that command's. */
  lemma InsertStep(rest: seq<Action>, idx: seq<nat>, lv: int, n: nat, d: seq<Entry>, t: seq<Handle>)
    requires rest != [] && rest[0] == Insert(idx)
    ensures var run := FreshRun(idx, lv, n);
            var later := Created(rest[1..], lv, n + |idx|);
            && Replay(d, rest, Created(rest, lv, n)) == Replay(InsertAll(d, idx, run), rest[1..], later)
            && Replay(t, rest, Bounds(Created(rest, lv, n))) == Replay(InsertAll(t, idx, Bounds(run)), rest[1..], Bounds(later))
            && InsertCount(rest) == |idx| + InsertCount(rest[1..])
  {
    var run := FreshRun(idx, lv, n);
    var later := Created(rest[1..], lv, n + |idx|);
    assert Created(rest, lv, n) == run + later;
    assert (run + later)[..|idx|] == run && (run + later)[|idx|..] == later;
    assert Bounds(run + later)[..|idx|] == Bounds(run) && Bounds(run + later)[|idx|..] == Bounds(later);
  }

  /** Commands other than `Insert` and `Update` create nothing. */
  lemma PlainStep(rest: seq<Action>, lv: int, n: nat)
    requires rest != [] && !rest[0].Insert? && !rest[0].Update?
    ensures Created(rest, lv, n) == Created(rest[1..], lv, n)
    ensures InsertCount(rest) == InsertCount(rest[1..]) && UpdatesOf(rest) == UpdatesOf(rest[1..])
  {
  }

  /** The pairs of the first `Update` command: the rest of the delta after the structural commands. */
  function UpdatesOf(acts: seq<Action>): seq<UpdateItem>
  {
    if acts == [] then []
    else if acts[0].Update? then acts[0].items
    else UpdatesOf(acts[1..])
  }

  /** A delta cut from the log hands the mirror exactly the trailing block's pairs. */
  lemma {:induction false} UpdatesOfAnswer(acts: seq<Action>, items: seq<UpdateItem>)
    requires NoUpdate(acts)
    ensures UpdatesOf(acts + UpdateBlock(items)) == items
    decreases |acts|
  {
    if acts == [] {
      assert acts + UpdateBlock(items) == UpdateBlock(items);
    } else {
      assert (acts + UpdateBlock(items))[0] == acts[0];
      assert (acts + UpdateBlock(items))[1..] == acts[1..] + UpdateBlock(items);
      assert !acts[0].Update?;
      assert NoUpdate(acts[1..]) by {
        forall k | 0 <= k < |acts[1..]| ensures !acts[1..][k].Update? {
          assert acts[1..][k] == acts[k + 1];
        }
      }
      UpdatesOfAnswer(acts[1..], items);
    }
  }

  /** The calls the `Update` loop makes on the mirror's shadow `d`; `None` when a position is past its end. */
  function Forward(d: seq<Entry>, items: seq<UpdateItem>): Option<seq<Call>>
    decreases |items|
  {
    if items == [] then Some([])
    else
      match Forward(d, items[..|items| - 1])
      case None => None
      case Some(calls) =>
        var it := items[|items| - 1];
        if it.index < |d| then Some(calls + [Call(d[it.index].bound, it.delta)]) else None
  }

  /** Forwarding succeeds exactly when every position is in range, and then hands each delta to the element at its position. */
  lemma {:induction false} ForwardMeaning(d: seq<Entry>, items: seq<UpdateItem>)
    ensures Forward(d, items).Some? <==> forall k :: 0 <= k < |items| ==> items[k].index < |d|
    ensures Forward(d, items).Some? ==>
              |Forward(d, items).value| == |items|
              && forall k :: 0 <= k < |items| ==> Forward(d, items).value[k] == Call(d[items[k].index].bound, items[k].delta)
    decreases |items|
  {
    if items != [] {
      var init := items[..|items| - 1];
      ForwardMeaning(d, init);
      assert forall k :: 0 <= k < |init| ==> init[k] == items[k];
    }
  }

  /**
   * Where an entry of a replayed shadow comes from: the entry at position `i`
   * of the shadow the replay started from, or the `j`-th entry the replay
   * created.
   */
  datatype Origin = Old(i: nat) | New(j: nat)

  /** The origins of a starting shadow of `n` entries. */
  function Olds(n: nat): (r: seq<Origin>)
    ensures |r| == n && forall i :: 0 <= i < n ==> r[i] == Old(i)
  {
    seq(n, i requires 0 <= i < n => Old(i))
  }

  /** The origins of `n` created entries. */
  function News(n: nat): (r: seq<Origin>)
    ensures |r| == n && forall j :: 0 <= j < n ==> r[j] == New(j)
  {
    seq(n, j requires 0 <= j < n => New(j))
  }

  /** The entry an origin stands for, given the starting shadow and the created entries. */
  function Resolve(start: seq<Entry>, made: seq<Entry>): Origin -> Entry
  {
    (o: Origin) =>
      match o
      case Old(i) => if i < |start| then start[i] else Entry(0, 0, 0)
      case New(j) => if j < |made| then made[j] else Entry(0, 0, 0)
  }

  /**
   * A replay only moves entries around: replaying any shadow is replaying
   * the origins of its entries and of the created ones, then resolving them.
   */
  lemma ReplayOrigins(start: seq<Entry>, acts: seq<Action>, made: seq<Entry>)
    ensures MapOpt(Resolve(start, made), Replay(Olds(|start|), acts, News(|made|))) == Replay(start, acts, made)
  {
    var f := Resolve(start, made);
    assert MapSeq(f, Olds(|start|)) == start;
    assert MapSeq(f, News(|made|)) == made;
    ReplayMaps(f, Olds(|start|), acts, News(|made|));
  }

  /** Log entry `k` starts with a `Clear`, so its replay forgets whatever shadow it starts from. */
  predicate StartsWithClear(log: seq<LogEntry>, k: nat)
  {
    k < |log| && log[k].actions != [] && log[k].actions[0] == Clear
  }

  /** A command list that starts with `Clear` replays the same from any two shadows. */
  lemma ClearForgets<X>(s1: seq<X>, s2: seq<X>, acts: seq<Action>, ins: seq<X>)
    requires acts != [] && acts[0] == Clear
    ensures Replay(s1, acts, ins) == Replay(s2, acts, ins)
  {
  }

  /**
   * The mirror's replay of an answer. The mirror's shadow is as long as the
   * source's shadow before entry `k` (or entry `k` starts with a `Clear`);
   * the mirror's objects and elements need not be related to the source's.
   * Then the source's replay and the mirror's both succeed and put, at each
   * position, the counterparts of the same origin: the source's current
   * entry there is the source's entry of that origin, and the mirror's is the
   * mirror's entry of that origin, an entry it held at the same position of
   * its old shadow or the one it created in the same place of the run.
   */
  lemma MirrorReplays(log: seq<LogEntry>, before: seq<seq<Entry>>, created: seq<seq<Entry>>, cur: seq<Entry>,
                      k: nat, items: seq<UpdateItem>, mirror: seq<Entry>, lv: int, base: nat)
    requires Chained(log, before, created, cur) && k <= |log|
    requires |mirror| == |At(before, cur, k)| || StartsWithClear(log, k)
    ensures var acts := Flatten(log[k..]) + UpdateBlock(items);
            var made := Created(acts, lv, base);
            var o := Replay(Olds(|mirror|), acts, News(|made|));
            && o.Some?
            && cur == MapSeq(Resolve(At(before, cur, k), Concat(created[k..])), o.value)
            && Replay(mirror, acts, made) == Some(MapSeq(Resolve(mirror, made), o.value))
  {
    var acts := Flatten(log[k..]) + UpdateBlock(items);
    var made := Created(acts, lv, base);
    AnswerCreates(log, before, created, cur, k, items, lv, base);
    AnswerReplays(log, before, created, cur, k, items);
    if StartsWithClear(log, k) {
      AnswerStartsWithClear(log, k, items);
    }
    SameOrigins(At(before, cur, k), Concat(created[k..]), cur, mirror, made, acts);
  }

  /** The mirror creates as many entries while replaying an answer as the source's rescans created. */
  lemma AnswerCreates(log: seq<LogEntry>, before: seq<seq<Entry>>, created: seq<seq<Entry>>, cur: seq<Entry>,
                      k: nat, items: seq<UpdateItem>, lv: int, base: nat)
    requires Chained(log, before, created, cur) && k <= |log|
    ensures |Created(Flatten(log[k..]) + UpdateBlock(items), lv, base)| == |Concat(created[k..])|
  {
    CatchUp(log, before, created, cur, k);
    InsertCountAppend(Flatten(log[k..]), UpdateBlock(items));
  }

  /** An answer from an entry that starts with `Clear` starts with `Clear`. */
  lemma AnswerStartsWithClear(log: seq<LogEntry>, k: nat, items: seq<UpdateItem>)
    requires StartsWithClear(log, k)
    ensures var acts := Flatten(log[k..]) + UpdateBlock(items);
            acts != [] && acts[0] == Clear
  {
    assert log[k..][0] == log[k];
  }

  /**
   * Two replays of the same commands, one from `at` with `ins` supplied and
   * one from `mirror` with `made` supplied, put at each position the entries
   * of the same origin, provided the starting shadows are equally long or the
   * commands start with `Clear`.
   */
  lemma SameOrigins(at: seq<Entry>, ins: seq<Entry>, cur: seq<Entry>, mirror: seq<Entry>, made: seq<Entry>, acts: seq<Action>)
    requires Replay(at, acts, ins) == Some(cur)
    requires |made| == |ins|
    requires |mirror| == |at| || (acts != [] && acts[0] == Clear)
    ensures var o := Replay(Olds(|mirror|), acts, News(|made|));
            && o.Some?
            && cur == MapSeq(Resolve(at, ins), o.value)
            && Replay(mirror, acts, made) == Some(MapSeq(Resolve(mirror, made), o.value))
  {
    ReplayOrigins(at, acts, ins);
    ReplayOrigins(mirror, acts, made);
    if |mirror| != |at| {
      ClearForgets(Olds(|mirror|), Olds(|at|), acts, News(|made|));
    }
  }

  /**
   * The round trip: under the conditions of `MirrorReplays`, each nested
   * delta of the trailing block reaches the mirror's counterpart of the
   * source entry it was generated for.
   */
  lemma MirrorRoundTrip(log: seq<LogEntry>, before: seq<seq<Entry>>, created: seq<seq<Entry>>, cur: seq<Entry>,
                        k: nat, items: seq<UpdateItem>, mirror: seq<Entry>, lv: int, base: nat)
    requires Chained(log, before, created, cur) && k <= |log|
    requires |mirror| == |At(before, cur, k)| || StartsWithClear(log, k)
    requires forall j :: 0 <= j < |items| ==> items[j].index < |cur|
    ensures var acts := Flatten(log[k..]) + UpdateBlock(items);
            var made := Created(acts, lv, base);
            var o := Replay(Olds(|mirror|), acts, News(|made|));
            var r := Replay(mirror, acts, made);
            && o.Some? && r.Some? && |o.value| == |cur|
            && Forward(r.value, UpdatesOf(acts)).Some?
            && |Forward(r.value, UpdatesOf(acts)).value| == |items|
            && forall j :: 0 <= j < |items| ==>
                 && cur[items[j].index] == Resolve(At(before, cur, k), Concat(created[k..]))(o.value[items[j].index])
                 && Forward(r.value, UpdatesOf(acts)).value[j]
                    == Call(Resolve(mirror, made)(o.value[items[j].index]).bound, items[j].delta)
  {
    var acts := Flatten(log[k..]) + UpdateBlock(items);
    MirrorReplays(log, before, created, cur, k, items, mirror, lv, base);
    var r := Replay(mirror, acts, Created(acts, lv, base));
    CatchUp(log, before, created, cur, k);
    UpdatesOfAnswer(Flatten(log[k..]), items);
    ForwardMeaning(r.value, items);
  }
}
