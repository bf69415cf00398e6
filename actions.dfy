/**
 * The command vocabulary of identity-tracked array deltas and the meaning of
 * replaying a command list on a sequence. Replay is generic in the element
 * type, so the same definition describes the mirror array, the mirror's
 * shadow and the source's shadow.
 */
module Actions {
  import opened Common

  datatype MovePair = MovePair(from: nat, to: nat)

  datatype UpdateItem = UpdateItem(index: nat, delta: NestedDelta)

  /**
   * `[Insert, count, index...]`, `[Delete, count, index...]`,
   * `[Move, count, (from, to)...]`, `[Clear]` and `[Update, (index, delta)...]`;
   * the counts are the lengths of the lists.
   */
  datatype Action =
    | Insert(indices: seq<nat>)
    | Delete(indices: seq<nat>)
    | Move(pairs: seq<MovePair>)
    | Clear
    | Update(items: seq<UpdateItem>)

  /** `splice(i, 1)`: an index past the end removes nothing. */
  function RemoveAt<X>(s: seq<X>, i: nat): (r: seq<X>)
    ensures i < |s| ==> |r| == |s| - 1 && r[..i] == s[..i] && r[i..] == s[i + 1..]
    ensures i >= |s| ==> r == s
    ensures forall x :: x in r ==> x in s
  {
    if i < |s| then s[..i] + s[i + 1..] else s
  }

  /** `splice(i, 0, x)`: an index past the end appends. */
  function InsertAt<X>(s: seq<X>, i: nat, x: X): (r: seq<X>)
    ensures |r| == |s| + 1
    ensures i <= |s| ==> r[i] == x && r[..i] == s[..i] && r[i + 1..] == s[i..]
    ensures i > |s| ==> r == s + [x]
  {
    if i <= |s| then s[..i] + [x] + s[i..] else s + [x]
  }

  /**
   * The destructuring swap `[a[i], a[j]] = [a[j], a[i]]`. With an index past
   * the end the source would write holes into the array; the model answers
   * `None` there.
   */
  function SwapAt<X>(s: seq<X>, i: nat, j: nat): (r: Option<seq<X>>)
    ensures r.Some? <==> i < |s| && j < |s|
    ensures r.Some? ==> |r.value| == |s| && r.value[i] == s[j] && r.value[j] == s[i]
    ensures r.Some? ==> forall k :: 0 <= k < |s| && k != i && k != j ==> r.value[k] == s[k]
    ensures r.Some? ==> forall x :: x in r.value ==> x in s
  {
    if i < |s| && j < |s| then Some(s[i := s[j]][j := s[i]]) else None
  }

  /** Removes the listed indices one after another, as `Delete` does: what is left was there before. */
  function RemoveAll<X>(s: seq<X>, idx: seq<nat>): (r: seq<X>)
    ensures |r| <= |s|
    ensures forall x :: x in r ==> x in s
    decreases |idx|
  {
    if idx == [] then s else RemoveAt(RemoveAll(s, idx[..|idx| - 1]), idx[|idx| - 1])
  }

  lemma RemoveAllSnoc<X>(s: seq<X>, idx: seq<nat>, i: nat)
    ensures RemoveAll(s, idx + [i]) == RemoveAt(RemoveAll(s, idx), i)
  {
    assert (idx + [i])[..|idx|] == idx;
  }

  /** Inserts `ins[k]` at `idx[k]` one after another, as `Insert` does. */
  function InsertAll<X>(s: seq<X>, idx: seq<nat>, ins: seq<X>): (r: seq<X>)
    requires |ins| == |idx|
    ensures |r| == |s| + |idx|
    decreases |idx|
  {
    if idx == [] then s
    else InsertAt(InsertAll(s, idx[..|idx| - 1], ins[..|idx| - 1]), idx[|idx| - 1], ins[|idx| - 1])
  }

  /** `InsertAll` over one more command entry: the next insertion on top of the earlier ones. */
  lemma InsertAllSnoc<X>(s: seq<X>, idx: seq<nat>, ins: seq<X>, j: nat)
    requires |ins| == |idx| && j < |idx|
    ensures InsertAll(s, idx[..j + 1], ins[..j + 1]) == InsertAt(InsertAll(s, idx[..j], ins[..j]), idx[j], ins[j])
  {
    assert idx[..j + 1][..j] == idx[..j] && ins[..j + 1][..j] == ins[..j];
  }

  /** Swaps the listed pairs one after another, as `Move` does: only rearranges, keeping the length. */
  function SwapAll<X>(s: seq<X>, ps: seq<MovePair>): (r: Option<seq<X>>)
    ensures r.Some? ==> |r.value| == |s| && forall x :: x in r.value ==> x in s
    decreases |ps|
  {
    if ps == [] then Some(s)
    else
      match SwapAll(s, ps[..|ps| - 1])
      case None => None
      case Some(s') => SwapAt(s', ps[|ps| - 1].from, ps[|ps| - 1].to)
  }

  /** Once a prefix of the swaps fails, the whole list fails. */
  lemma {:induction false} SwapAllPrefixFails<X>(s: seq<X>, ps: seq<MovePair>, j: nat)
    requires j <= |ps| && SwapAll(s, ps[..j]).None?
    ensures SwapAll(s, ps).None?
    decreases |ps|
  {
    if j < |ps| {
      var init := ps[..|ps| - 1];
      assert init[..j] == ps[..j];
      SwapAllPrefixFails(s, init, j);
    } else {
      assert ps[..j] == ps;
    }
  }

  /** Number of elements the structural commands before the first `Update` create. */
  function InsertCount(acts: seq<Action>): nat
  {
    if acts == [] then 0
    else
      match acts[0]
      case Insert(idx) => |idx| + InsertCount(acts[1..])
      case Update(_) => 0
      case _ => InsertCount(acts[1..])
  }

  /**
   * Replays the structural part of a delta on `s`; `ins` supplies, in order,
   * the elements the `Insert` commands create. `Update` ends the replay: the
   * receiver treats it as the rest of the delta. `None` means a command could
   * not be carried out on a sequence (a `Move` past the end, or too few
   * elements supplied).
   */
  function Replay<X>(s: seq<X>, acts: seq<Action>, ins: seq<X>): (r: Option<seq<X>>)
    ensures r.Some? ==> forall x :: x in r.value ==> x in s || x in ins
    decreases |acts|
  {
    if acts == [] then Some(s)
    else
      match acts[0]
      case Insert(idx) =>
        if |ins| < |idx| then None
        else
          InsertedFrom(s, idx, ins);
          Replay(InsertAll(s, idx, ins[..|idx|]), acts[1..], ins[|idx|..])
      case Delete(idx) => Replay(RemoveAll(s, idx), acts[1..], ins)
      case Move(ps) =>
        (match SwapAll(s, ps)
         case None => None
         case Some(s') => Replay(s', acts[1..], ins))
      case Clear => Replay([], acts[1..], ins)
      case Update(_) => Some(s)
  }

  /** After an `Insert`, the sequence and the elements still to be supplied come from the old ones. */
  lemma InsertedFrom<X>(s: seq<X>, idx: seq<nat>, ins: seq<X>)
    requires |idx| <= |ins|
    ensures forall x :: x in InsertAll(s, idx, ins[..|idx|]) ==> x in s || x in ins
    ensures forall x :: x in ins[|idx|..] ==> x in ins
  {
    InsertAllElems(s, idx, ins[..|idx|]);
    forall x | x in InsertAll(s, idx, ins[..|idx|]) ensures x in s || x in ins {
      assert x in Elems(InsertAll(s, idx, ins[..|idx|]));
      if x !in s {
        assert x in Elems(ins[..|idx|]);
        var k :| 0 <= k < |idx| && ins[..|idx|][k] == x;
        assert ins[k] == x;
      }
    }
    forall x | x in ins[|idx|..] ensures x in ins {
      var k :| 0 <= k < |ins| - |idx| && ins[|idx|..][k] == x;
      assert ins[|idx| + k] == x;
    }
  }

  predicate NoUpdate(acts: seq<Action>)
  {
    forall k :: 0 <= k < |acts| ==> !acts[k].Update?
  }

  /** Continues a replay that may already have failed. */
  function ReplayAfter<X>(o: Option<seq<X>>, acts: seq<Action>, ins: seq<X>): Option<seq<X>>
  {
    match o
    case None => None
    case Some(s) => Replay(s, acts, ins)
  }

  /** A command list without `Update` creates its elements before those of whatever follows it. */
  lemma {:induction false} InsertCountAppend(a1: seq<Action>, a2: seq<Action>)
    requires NoUpdate(a1)
    ensures InsertCount(a1 + a2) == InsertCount(a1) + InsertCount(a2)
    decreases |a1|
  {
    if a1 == [] {
      assert a1 + a2 == a2;
    } else {
      assert (a1 + a2)[0] == a1[0] && (a1 + a2)[1..] == a1[1..] + a2;
      assert NoUpdate(a1[1..]) by {
        forall k | 0 <= k < |a1[1..]| ensures !a1[1..][k].Update? {
          assert a1[1..][k] == a1[k + 1];
        }
      }
      assert !a1[0].Update?;
      InsertCountAppend(a1[1..], a2);
    }
  }

  /**
   * Replaying two deltas one after the other is replaying their concatenation,
   * provided the first carries no `Update` and is given exactly the elements it
   * inserts: this is what lets an observer catch up over several log entries
   * with one concatenated delta.
   */
  lemma {:induction false} ReplayAppend<X>(s: seq<X>, a1: seq<Action>, a2: seq<Action>, ins1: seq<X>, ins2: seq<X>)
    requires NoUpdate(a1)
    requires |ins1| == InsertCount(a1)
    ensures Replay(s, a1 + a2, ins1 + ins2) == ReplayAfter(Replay(s, a1, ins1), a2, ins2)
    decreases |a1|
  {
    if a1 == [] {
      assert a1 + a2 == a2;
      assert ins1 + ins2 == ins2;
    } else {
      var rest := a1[1..];
      assert (a1 + a2)[0] == a1[0];
      assert (a1 + a2)[1..] == rest + a2;
      assert NoUpdate(rest) by {
        forall k | 0 <= k < |rest| ensures !rest[k].Update? {
          assert rest[k] == a1[k + 1];
        }
      }
      assert !a1[0].Update?;
      match a1[0]
      case Insert(idx) =>
        assert |ins1| == |idx| + InsertCount(rest);
        assert (ins1 + ins2)[..|idx|] == ins1[..|idx|];
        assert (ins1 + ins2)[|idx|..] == ins1[|idx|..] + ins2;
        ReplayAppend(InsertAll(s, idx, ins1[..|idx|]), rest, a2, ins1[|idx|..], ins2);
      case Delete(idx) =>
        ReplayAppend(RemoveAll(s, idx), rest, a2, ins1, ins2);
      case Move(ps) =>
        match SwapAll(s, ps) {
          case None =>
          case Some(s') =>
            ReplayAppend(s', rest, a2, ins1, ins2);
        }
      case Clear =>
        ReplayAppend([], rest, a2, ins1, ins2);
    }
  }

  lemma RemoveAtMaps<X, Y>(f: X -> Y, s: seq<X>, i: nat)
    ensures MapSeq(f, RemoveAt(s, i)) == RemoveAt(MapSeq(f, s), i)
  {
  }

  lemma InsertAtMaps<X, Y>(f: X -> Y, s: seq<X>, i: nat, x: X)
    ensures MapSeq(f, InsertAt(s, i, x)) == InsertAt(MapSeq(f, s), i, f(x))
  {
  }

  lemma SwapAtMaps<X, Y>(f: X -> Y, s: seq<X>, i: nat, j: nat)
    ensures MapOpt(f, SwapAt(s, i, j)) == SwapAt(MapSeq(f, s), i, j)
  {
    if i < |s| && j < |s| {
      var m := MapSeq(f, s);
      assert MapSeq(f, s[i := s[j]][j := s[i]]) == m[i := m[j]][j := m[i]];
    }
  }

  lemma {:induction false} RemoveAllMaps<X, Y>(f: X -> Y, s: seq<X>, idx: seq<nat>)
    ensures MapSeq(f, RemoveAll(s, idx)) == RemoveAll(MapSeq(f, s), idx)
    decreases |idx|
  {
    if idx != [] {
      RemoveAllMaps(f, s, idx[..|idx| - 1]);
      RemoveAtMaps(f, RemoveAll(s, idx[..|idx| - 1]), idx[|idx| - 1]);
    }
  }

  lemma {:induction false} InsertAllMaps<X, Y>(f: X -> Y, s: seq<X>, idx: seq<nat>, ins: seq<X>)
    requires |ins| == |idx|
    ensures MapSeq(f, InsertAll(s, idx, ins)) == InsertAll(MapSeq(f, s), idx, MapSeq(f, ins))
    decreases |idx|
  {
    if idx != [] {
      var n := |idx| - 1;
      InsertAllMaps(f, s, idx[..n], ins[..n]);
      InsertAtMaps(f, InsertAll(s, idx[..n], ins[..n]), idx[n], ins[n]);
      assert MapSeq(f, ins)[..n] == MapSeq(f, ins[..n]);
    }
  }

  lemma {:induction false} SwapAllMaps<X, Y>(f: X -> Y, s: seq<X>, ps: seq<MovePair>)
    ensures MapOpt(f, SwapAll(s, ps)) == SwapAll(MapSeq(f, s), ps)
    decreases |ps|
  {
    if ps != [] {
      var n := |ps| - 1;
      SwapAllMaps(f, s, ps[..n]);
      match SwapAll(s, ps[..n])
      case None =>
      case Some(s') =>
        SwapAtMaps(f, s', ps[n].from, ps[n].to);
    }
  }

  /**
   * Replay does not look at the elements: replaying on relabelled elements
   * gives the relabelled result. With `f` mapping each source element to its
   * replica, this carries a source-side round trip over to a mirror.
   */
  lemma {:induction false} ReplayMaps<X, Y>(f: X -> Y, s: seq<X>, acts: seq<Action>, ins: seq<X>)
    ensures MapOpt(f, Replay(s, acts, ins)) == Replay(MapSeq(f, s), acts, MapSeq(f, ins))
    decreases |acts|
  {
    if acts != [] {
      var rest := acts[1..];
      match acts[0]
      case Insert(idx) =>
        if |ins| >= |idx| {
          InsertAllMaps(f, s, idx, ins[..|idx|]);
          assert MapSeq(f, ins)[..|idx|] == MapSeq(f, ins[..|idx|]);
          assert MapSeq(f, ins)[|idx|..] == MapSeq(f, ins[|idx|..]);
          ReplayMaps(f, InsertAll(s, idx, ins[..|idx|]), rest, ins[|idx|..]);
        }
      case Delete(idx) =>
        RemoveAllMaps(f, s, idx);
        ReplayMaps(f, RemoveAll(s, idx), rest, ins);
      case Move(ps) =>
        SwapAllMaps(f, s, ps);
        match SwapAll(s, ps) {
          case None =>
          case Some(s') =>
            ReplayMaps(f, s', rest, ins);
        }
      case Clear =>
        assert MapSeq(f, []) == [];
        ReplayMaps(f, [], rest, ins);
      case Update(_) =>
    }
  }

  lemma InsertAtElems<X>(s: seq<X>, i: nat, x: X)
    ensures Elems(InsertAt(s, i, x)) == Elems(s) + {x}
    ensures Distinct(s) && x !in Elems(s) ==> Distinct(InsertAt(s, i, x))
  {
    if i <= |s| {
      var r := InsertAt(s, i, x);
      assert r == s[..i] + ([x] + s[i..]);
      assert s == s[..i] + s[i..];
      DistinctConcat(s[..i], s[i..]);
      DistinctConcat([x], s[i..]);
      DistinctConcat(s[..i], [x] + s[i..]);
    } else {
      DistinctConcat(s, [x]);
    }
  }

  /**
   * Inserting brings in exactly the inserted elements, and inserting new
   * distinct elements into a sequence without repetitions gives one without
   * repetitions.
   */
  lemma {:induction false} InsertAllElems<X>(s: seq<X>, idx: seq<nat>, ins: seq<X>)
    requires |ins| == |idx|
    ensures Elems(InsertAll(s, idx, ins)) == Elems(s) + Elems(ins)
    ensures Distinct(s) && Distinct(ins) && Elems(s) !! Elems(ins) ==> Distinct(InsertAll(s, idx, ins))
    decreases |idx|
  {
    if idx == [] {
      assert Elems(ins) == {};
    } else {
      var n := |idx| - 1;
      assert ins == ins[..n] + [ins[n]];
      DistinctConcat(ins[..n], [ins[n]]);
      assert Elems(ins) == Elems(ins[..n]) + {ins[n]};
      InsertAllElems(s, idx[..n], ins[..n]);
      InsertAtElems(InsertAll(s, idx[..n], ins[..n]), idx[n], ins[n]);
    }
  }
}
