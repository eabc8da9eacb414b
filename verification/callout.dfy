/** The timer wheel of bin/mudband/common/callout.c. Each bucket is a queue of callouts whose
    time agrees with the bucket modulo the size of the wheel; while `COT_clock` scans a
    bucket, callbacks may themselves reset and stop callouts. */
module Callout {
  import opened Schedule
  import opened Bits

  /** A pointer to a callout. */
  datatype Ptr = Null | To(id: nat)

  // ---------------------------------------------------------------- buckets and the schedule

  /** The bucket of a time: masking with the size less one. */
  function Slot(t: nat, size: nat): nat
    requires 0 < size
  {
    And(t, size - 1)
  }

  /** The size is a power of two, so times a whole turn apart share a bucket and no others do. */
  lemma SlotIsMod(t: nat, size: nat, k: nat)
    requires size == Pow2(k)
    ensures 0 < size && Slot(t, size) == t % size
  {
    MaskIsMod(t, k);
  }

  /** The entries of a schedule that belong into bucket `b`, in order. */
  function Bucket(list: seq<Entry>, b: nat, size: nat): seq<Entry>
    requires 0 < size
  {
    if |list| == 0 then []
    else (if Slot(list[0].time, size) == b then [list[0]] else []) + Bucket(list[1..], b, size)
  }

  function Ids(list: seq<Entry>): (r: seq<nat>)
    ensures |r| == |list| && forall i :: 0 <= i < |r| ==> r[i] == list[i].id
  {
    seq(|list|, i requires 0 <= i < |list| => list[i].id)
  }

  predicate Distinct(list: seq<Entry>) {
    forall i, j :: 0 <= i < j < |list| ==> list[i].id != list[j].id
  }

  lemma {:induction false} BucketAppend(list: seq<Entry>, more: seq<Entry>, b: nat, size: nat)
    requires 0 < size
    ensures Bucket(list + more, b, size) == Bucket(list, b, size) + Bucket(more, b, size)
  {
    hide Slot;
    if |list| == 0 {
      assert list + more == more;
    } else {
      assert (list + more)[1..] == list[1..] + more && (list + more)[0] == list[0];
      BucketAppend(list[1..], more, b, size);
      var head := if Slot(list[0].time, size) == b then [list[0]] else [];
      assert head + (Bucket(list[1..], b, size) + Bucket(more, b, size)) == head + Bucket(list[1..], b, size)
        + Bucket(more, b, size);
    }
  }

  lemma BucketOne(e: Entry, b: nat, size: nat)
    requires 0 < size
    ensures Bucket([e], b, size) == if Slot(e.time, size) == b then [e] else []
  {
    hide Slot;
    assert [e][1..] == [];
  }

  lemma {:induction false} BucketFrom(list: seq<Entry>, b: nat, size: nat, k: nat)
    requires 0 < size && k < |Bucket(list, b, size)|
    ensures exists i :: 0 <= i < |list| && list[i] == Bucket(list, b, size)[k]
    ensures Slot(Bucket(list, b, size)[k].time, size) == b
  {
    hide Slot;
    if Slot(list[0].time, size) != b {
      BucketFrom(list[1..], b, size, k);
      var i :| 0 <= i < |list[1..]| && list[1..][i] == Bucket(list, b, size)[k];
      assert list[i + 1] == Bucket(list, b, size)[k];
    } else if k != 0 {
      BucketFrom(list[1..], b, size, k - 1);
      var i :| 0 <= i < |list[1..]| && list[1..][i] == Bucket(list, b, size)[k];
      assert list[i + 1] == Bucket(list, b, size)[k];
    }
  }

  lemma {:induction false} BucketDistinct(list: seq<Entry>, b: nat, size: nat)
    requires 0 < size && Distinct(list)
    ensures Distinct(Bucket(list, b, size))
  {
    hide Slot;
    if |list| != 0 {
      BucketDistinct(list[1..], b, size);
      var rest := Bucket(list[1..], b, size);
      forall k | 0 <= k < |rest|
        ensures rest[k].id != list[0].id
      {
        BucketFrom(list[1..], b, size, k);
      }
    }
  }

  /** Where an entry of the list stands in its bucket. */
  lemma BucketFind(list: seq<Entry>, i: nat, size: nat)
    requires 0 < size && i < |list| && Distinct(list)
    ensures var E := Bucket(list, Slot(list[i].time, size), size);
      var j := Find(E, list[i].id);
      j < |E| && E[j] == list[i]
  {
    hide Slot, Bucket;
    var b := Slot(list[i].time, size);
    BucketSplit(list, i, b, size);
    BucketDistinct(list, b, size);
    var A, C := Bucket(list[..i], b, size), Bucket(list[i + 1..], b, size);
    Middle(A, list[i], C);
    FindAt(A + [list[i]] + C, |A|);
  }

  /** Taking an entry off the list takes it out of its bucket and out of no other. */
  lemma BucketWithout(list: seq<Entry>, i: nat, b: nat, size: nat)
    requires 0 < size && i < |list| && Distinct(list)
    ensures var E := Bucket(list, b, size);
      if Slot(list[i].time, size) == b
      then Find(E, list[i].id) < |E| && Bucket(Without(list, i), b, size) == Without(E, Find(E, list[i].id))
      else Bucket(Without(list, i), b, size) == E
  {
    hide Slot, Bucket, Find;
    var e, before, after := list[i], list[..i], list[i + 1..];
    var A, C := Bucket(before, b, size), Bucket(after, b, size);
    BucketSplit(list, i, b, size);
    BucketAppend(before, after, b, size);
    if Slot(e.time, size) == b {
      BucketDistinct(list, b, size);
      Middle(A, e, C);
      FindAt(A + [e] + C, |A|);
    } else {
      assert A + [] + C == A + C;
    }
  }

  lemma BucketSplit(list: seq<Entry>, i: nat, b: nat, size: nat)
    requires 0 < size && i < |list|
    ensures Bucket(list, b, size) ==
      Bucket(list[..i], b, size) + (if Slot(list[i].time, size) == b then [list[i]] else [])
        + Bucket(list[i + 1..], b, size)
  {
    hide Slot, Bucket;
    var e, before, after := list[i], list[..i], list[i + 1..];
    assert list == before + [e] + after;
    BucketAppend(before + [e], after, b, size);
    BucketAppend(before, [e], b, size);
    BucketOne(e, b, size);
  }

  lemma Middle(a: seq<Entry>, e: Entry, c: seq<Entry>)
    ensures (a + [e] + c)[|a|] == e && Without(a + [e] + c, |a|) == a + c
  {
  }

  lemma FindAt(E: seq<Entry>, j: nat)
    requires Distinct(E) && j < |E|
    ensures Find(E, E[j].id) == j
  {
  }

  /** The first due entry of the bucket is the first due entry of the list. */
  lemma {:induction false} BucketFirst(list: seq<Entry>, t: nat, size: nat, p: nat)
    requires 0 < size
    requires var E := Bucket(list, Slot(t, size), size);
      p <= |E| && (forall k :: 0 <= k < p ==> E[k].time != t) && (p < |E| ==> E[p].time == t)
    ensures var E := Bucket(list, Slot(t, size), size);
      if p == |E| then FirstDue(list, t) == |list|
      else FirstDue(list, t) < |list| && list[FirstDue(list, t)] == E[p]
  {
    hide Slot;
    if |list| != 0 {
      var E, E1 := Bucket(list, Slot(t, size), size), Bucket(list[1..], Slot(t, size), size);
      if Slot(list[0].time, size) == Slot(t, size) {
        if list[0].time != t {
          assert p > 0;
          assert forall k :: 0 <= k < p - 1 ==> E1[k] == E[k + 1];
          BucketFirst(list[1..], t, size, p - 1);
        } else {
          assert E[0] == list[0];
        }
      } else {
        assert E == E1;
        BucketFirst(list[1..], t, size, p);
      }
    }
  }

  // ---------------------------------------------------------------- the scan pointer

  /** Position of pointer `p` in a bucket. */
  function Place(E: seq<Entry>, p: Ptr): nat {
    match p
    case Null => |E|
    case To(id) => Find(E, id)
  }

  /** Everything before the pointer has been looked at and is not due. */
  ghost predicate Skipped(E: seq<Entry>, p: Ptr, t: nat) {
    (p.To? ==> Place(E, p) < |E|) && forall k :: 0 <= k < Place(E, p) ==> E[k].time != t
  }

  /** The callout behind position `j`. */
  function Follow(E: seq<Entry>, j: nat): Ptr {
    if j + 1 < |E| then To(E[j + 1].id) else Null
  }

  /** Removing an entry keeps the pointer right, if it moves on when its own entry goes. */
  lemma SkippedWithout(E: seq<Entry>, j: nat, p: Ptr, t: nat)
    requires j < |E| && Distinct(E) && Skipped(E, p, t)
    ensures Skipped(Without(E, j), if p == To(E[j].id) then Follow(E, j) else p, t)
  {
    var E' := Without(E, j);
    if p == To(E[j].id) {
      if j + 1 < |E| {
        assert E'[j] == E[j + 1];
        assert Find(E', E[j + 1].id) == j;
      }
    } else if p.To? {
      var i := Place(E, p);
      assert E'[if i < j then i else i - 1] == E[i];
      assert Find(E', p.id) == if i < j then i else i - 1;
    }
  }

  lemma SkippedAppend(E: seq<Entry>, e: Entry, p: Ptr, t: nat)
    requires Skipped(E, p, t) && e.time != t
    ensures Skipped(E + [e], p, t)
  {
    if p.To? {
      var i := Place(E, p);
      assert (E + [e])[i] == E[i];
      assert Find(E + [e], p.id) == i;
    }
  }

  lemma SkippedNext(E: seq<Entry>, p: Ptr, t: nat)
    requires p.To? && Skipped(E, p, t) && Distinct(E) && E[Place(E, p)].time != t
    ensures Skipped(E, Follow(E, Place(E, p)), t) && Place(E, Follow(E, Place(E, p))) == Place(E, p) + 1
  {
    var j := Place(E, p);
    if j + 1 < |E| {
      assert Find(E, E[j + 1].id) == j + 1;
    }
  }

  lemma SkippedRemoved(E: seq<Entry>, j: nat, t: nat)
    requires j < |E| && Distinct(E) && forall k :: 0 <= k < j ==> E[k].time != t
    ensures Skipped(Without(E, j), Follow(E, j), t)
  {
    var E' := Without(E, j);
    if j + 1 < |E| {
      assert E'[j] == E[j + 1];
      assert Find(E', E[j + 1].id) == j;
    }
  }

  // ---------------------------------------------------------------- queues

  function IndexOf(q: seq<nat>, id: nat): nat {
    if |q| == 0 then 0 else if q[0] == id then 0 else 1 + IndexOf(q[1..], id)
  }

  /** VTAILQ_NEXT. */
  function NextId(q: seq<nat>, id: nat): Ptr {
    var j := IndexOf(q, id);
    if j + 1 < |q| then To(q[j + 1]) else Null
  }

  /** VTAILQ_REMOVE. */
  function RemoveId(q: seq<nat>, id: nat): seq<nat> {
    var j := IndexOf(q, id);
    if j < |q| then q[..j] + q[j + 1..] else q
  }

  lemma {:induction false} IndexIsFind(E: seq<Entry>, id: nat)
    ensures IndexOf(Ids(E), id) == Find(E, id)
  {
    if |E| != 0 {
      assert Ids(E)[1..] == Ids(E[1..]);
      IndexIsFind(E[1..], id);
    }
  }

  lemma QueueOps(E: seq<Entry>, id: nat)
    requires Find(E, id) < |E|
    ensures NextId(Ids(E), id) == Follow(E, Find(E, id))
    ensures RemoveId(Ids(E), id) == Ids(Without(E, Find(E, id)))
  {
    IndexIsFind(E, id);
    hide Find, IndexOf;
    var j := Find(E, id);
    assert Ids(E)[..j] + Ids(E)[j + 1..] == Ids(Without(E, j));
  }

  lemma IdsAppend(E: seq<Entry>, e: Entry)
    ensures Ids(E + [e]) == Ids(E) + [e.id]
  {
  }

  /** The wheel holds the schedule. */
  ghost predicate Holds(wheel: seq<seq<nat>>, list: seq<Entry>, size: nat) {
    0 < size == |wheel| && forall b :: 0 <= b < size ==> wheel[b] == Ids(Bucket(list, b, size))
  }

  /** The fields of the callouts agree with it. */
  ghost predicate Fields(pending: set<nat>, time: map<nat, nat>, list: seq<Entry>) {
    && (forall i :: 0 <= i < |list| ==> list[i].id in pending && list[i].id in time && time[list[i].id] == list[i].time)
    && (forall id :: id in pending ==> Find(list, id) < |list|)
  }

  lemma HoldsWithout(wheel: seq<seq<nat>>, list: seq<Entry>, size: nat, i: nat)
    requires Holds(wheel, list, size) && i < |list| && Distinct(list)
    ensures var b := Slot(list[i].time, size);
      b < size && Holds(wheel[b := RemoveId(wheel[b], list[i].id)], Without(list, i), size)
  {
    SlotBound(list[i].time, size);
    var id, b := list[i].id, Slot(list[i].time, size);
    var wheel' := wheel[b := RemoveId(wheel[b], id)];
    hide Slot, Bucket, RemoveId;
    forall c | 0 <= c < size
      ensures wheel'[c] == Ids(Bucket(Without(list, i), c, size))
    {
      BucketWithout(list, i, c, size);
      if c == b {
        QueueOps(Bucket(list, b, size), id);
      }
    }
  }

  lemma HoldsAppend(wheel: seq<seq<nat>>, list: seq<Entry>, size: nat, e: Entry)
    requires Holds(wheel, list, size)
    ensures var b := Slot(e.time, size);
      b < size && Holds(wheel[b := wheel[b] + [e.id]], list + [e], size)
  {
    SlotBound(e.time, size);
    var b := Slot(e.time, size);
    var wheel' := wheel[b := wheel[b] + [e.id]];
    hide Slot, Bucket;
    forall c | 0 <= c < size
      ensures wheel'[c] == Ids(Bucket(list + [e], c, size))
    {
      BucketAppend(list, [e], c, size);
      BucketOne(e, c, size);
      if c == b {
        IdsAppend(Bucket(list, b, size), e);
      } else {
        assert Bucket(list, c, size) + [] == Bucket(list, c, size);
      }
    }
  }

  lemma FieldsWithout(pending: set<nat>, time: map<nat, nat>, list: seq<Entry>, i: nat)
    requires Fields(pending, time, list) && i < |list| && Distinct(list)
    ensures Fields(pending - {list[i].id}, time, Without(list, i))
  {
    forall id | id in pending && id != list[i].id
      ensures Find(Without(list, i), id) < |list| - 1
    {
      var k := Find(list, id);
      assert Without(list, i)[if k < i then k else k - 1] == list[k];
    }
  }

  lemma FieldsAppend(pending: set<nat>, time: map<nat, nat>, list: seq<Entry>, e: Entry)
    requires Fields(pending, time, list) && Find(list, e.id) == |list|
    ensures Fields(pending + {e.id}, time[e.id := e.time], list + [e])
  {
    forall id | id in pending + {e.id}
      ensures Find(list + [e], id) < |list| + 1
    {
      if id == e.id {
        assert (list + [e])[|list|].id == id;
      } else {
        var k := Find(list, id);
        assert (list + [e])[k] == list[k];
      }
    }
  }

  lemma InvDistinct(s: Sched)
    requires Inv(s)
    ensures Distinct(s.list) && s.soft <= s.ticks
    ensures forall i :: 0 <= i < |s.list| ==> s.soft <= s.list[i].time
  {
  }

  // ---------------------------------------------------------------- the callout block

  class CalloutBlock {
    const size: nat
    const wheel: array<seq<nat>>
    /** What the n-th callback to run does. */
    const script: nat -> seq<Op>
    /** `c_time` and CALLOUT_PENDING of the callouts. */
    var time: map<nat, nat>
    var pending: set<nat>
    var ticks: nat
    var softticks: nat
    var nextsoftcheck: Ptr
    var calls: nat
    ghost var s: Sched

    /** During a scan. */
    ghost predicate Consistent()
      reads this, wheel
    {
      && Holds(wheel[..], s.list, size) && Fields(pending, time, s.list) && Inv(s)
      && s.ticks == ticks && s.soft == softticks && calls == |s.fired|
    }

    /** Between calls: nothing is due. */
    ghost predicate Valid()
      reads this, wheel
    {
      Consistent() && Quiet(s) && nextsoftcheck == Null
    }

    ghost predicate Scanning()
      requires 0 < size
      reads this
    {
      Skipped(Bucket(s.list, Slot(softticks, size), size), nextsoftcheck, softticks)
    }

    /** `COT_init`, with a wheel of at least `ncallout` buckets. */
    constructor (ncallout: nat, now: nat, script: nat -> seq<Op>)
      ensures Valid() && fresh(wheel) && s == Sched([], now, now, 0, [], {}) && this.script == script
      ensures ncallout <= size && exists k :: size == Pow2(k)
    {
      var n, bits := 1, 0;
      while n < ncallout
        invariant 1 <= n == Pow2(bits)
      {
        n, bits := 2 * n, bits + 1;
      }
      size := n;
      wheel := new seq<nat>[n](_ => []);
      this.script := script;
      time, pending, ticks, softticks, nextsoftcheck, calls := map[], {}, now, now, Null, 0;
      s := Sched([], now, now, 0, [], {});
    }

    /** `COT_ticks`. */
    method Ticks(now: nat)
      requires Valid() && ticks <= now
      modifies this`ticks, this`s
      ensures Valid() && s == old(s).(ticks := now)
    {
      hide Holds, Fields;
      ticks := now;
      s := s.(ticks := now);
    }

    /** Take a pending callout out of its queue. */
    method Unlink(id: nat)
      requires Consistent() && id in pending
      modifies this`nextsoftcheck, this`pending, this`s, wheel
      ensures Consistent() && s == Cancel(old(s), id) && id !in pending
      ensures old(Scanning()) ==> Scanning()
      ensures old(nextsoftcheck) == Null ==> nextsoftcheck == Null
    {
      hide Holds, Fields, Inv, Slot, Bucket, NextId, RemoveId, Cancel, Find, Skipped;
      UnlinkOk(wheel[..], size, pending, time, s, id, nextsoftcheck, softticks);
      var b := Slot(time[id], size);
      if nextsoftcheck == To(id) {
        nextsoftcheck := NextId(wheel[b], id);
      }
      ghost var w := wheel[..];
      wheel[b] := RemoveId(wheel[b], id);
      assert wheel[..] == w[b := RemoveId(w[b], id)];
      pending := pending - {id};
      s := Cancel(s, id);
    }

    /** `_callout_stop_safe`. */
    method Stop(id: nat) returns (stopped: bool)
      requires Consistent()
      modifies this`nextsoftcheck, this`pending, this`s, wheel
      ensures Consistent() && s == Cancel(old(s), id) && (stopped <==> Pending(old(s), id))
      ensures old(0 < size && Scanning()) ==> 0 < size && Scanning()
      ensures old(nextsoftcheck) == Null ==> nextsoftcheck == Null
    {
      WhetherPending(id);
      hide Holds, Fields, Inv;
      if id !in pending {
        return false;
      }
      Unlink(id);
      return true;
    }

    lemma WhetherPending(id: nat)
      requires Consistent()
      ensures id in pending <==> Pending(s, id)
      ensures 0 < size
    {
    }

    /** `_callout_reset`. */
    method Reset(id: nat, after: int) returns (cancelled: bool)
      requires Consistent()
      modifies this`nextsoftcheck, this`pending, this`s, this`time, wheel
      ensures Consistent() && s == DoReset(old(s), id, after) && (cancelled <==> Pending(old(s), id))
      ensures old(0 < size && Scanning()) ==> 0 < size && Scanning()
      ensures old(nextsoftcheck) == Null ==> nextsoftcheck == Null
    {
      WhetherPending(id);
      ResetIs(s, id, after);
      hide Holds, Fields, Inv, Slot, Bucket, Cancel, DoReset, Find, Skipped, Pending;
      cancelled := false;
      if id in pending {
        Unlink(id);
        cancelled := true;
      }
      var n: nat := if after <= 0 then 1 else after;
      Append(id, n);
    }

    /** Queue a callout that is not pending, `n` ticks from now. */
    method Append(id: nat, n: nat)
      requires Consistent() && Find(s.list, id) == |s.list| && 1 <= n
      modifies this`pending, this`s, this`time, wheel
      ensures Consistent()
      ensures s == old(s).(list := old(s).list + [Entry(id, old(s).ticks + n, old(s).serial)],
        serial := old(s).serial + 1)
      ensures old(0 < size && Scanning()) ==> 0 < size && Scanning()
    {
      hide Fields, Inv, Slot, Bucket, Holds, Skipped, Find;
      ghost var e := Entry(id, ticks + n, s.serial);
      InvDistinct(s);
      HoldsAppend(wheel[..], s.list, size, e);
      FieldsAppend(pending, time, s.list, e);
      AppendInv(s, e);
      HoldsSize(wheel[..], s.list, size);
      CursorAppend(s.list, e, size, nextsoftcheck, softticks);
      time := time[id := ticks + n];
      pending := pending + {id};
      var b := Slot(ticks + n, size);
      ghost var w := wheel[..];
      wheel[b] := wheel[b] + [id];
      assert wheel[..] == w[b := w[b] + [id]];
      s := s.(list := s.list + [e], serial := s.serial + 1);
    }

    /** A callback: any resets and stops. */
    method RunCallback(ops: seq<Op>)
      requires Consistent() && 0 < size && Scanning()
      modifies this`nextsoftcheck, this`pending, this`s, this`time, wheel
      ensures Consistent() && s == DoAll(old(s), ops) && Scanning()
    {
      hide Holds, Fields, Inv, Slot, Bucket, Cancel, DoReset, Skipped;
      var k := 0;
      AllOps(ops);
      while k < |ops|
        invariant 0 <= k <= |ops| && Consistent() && Scanning() && DoAll(s, ops[k..]) == DoAll(old(s), ops)
      {
        NextOp(s, ops[k..]);
        assert ops[k..][0] == ops[k] && ops[k..][1..] == ops[k + 1..];
        match ops[k] {
          case Reset(id, after) => var c := Reset(id, after);
          case Stop(id) => var c := Stop(id);
        }
        k := k + 1;
      }
      assert ops[k..] == [];
      NoOps(s);
    }

    /** Take the due callout `id` out of the current bucket and run its callback. Returns the
        callout to look at next. */
    method FireOne(id: nat) returns (next: Ptr)
      requires Consistent() && 0 < size && Skipped(Bucket(s.list, Slot(softticks, size), size), To(id), softticks)
      requires id in time && time[id] == softticks
      modifies this`nextsoftcheck, this`pending, this`s, this`time, this`calls, wheel
      ensures Consistent() && 0 < size && Skipped(Bucket(s.list, Slot(softticks, size), size), next, softticks)
      ensures var i := FirstDue(old(s).list, old(s).soft);
        i < |old(s).list| && s == DoAll(Fire(old(s), i), script(|old(s).fired|))
      ensures s.soft == old(s).soft && s.ticks == old(s).ticks && calls == |s.fired|
    {
      hide Holds, Fields, Inv, Slot, Bucket, Skipped, RemoveId, NextId, Fire, FirstDue;
      FireOk(wheel[..], size, pending, time, s, id);
      var b := Slot(softticks, size);
      ghost var i := FirstDue(s.list, s.soft);
      nextsoftcheck := NextId(wheel[b], id);
      ghost var w := wheel[..];
      wheel[b] := RemoveId(wheel[b], id);
      assert wheel[..] == w[b := RemoveId(w[b], id)];
      pending := pending - {id};
      var ops := script(calls);
      calls := calls + 1;
      s := Fire(s, i);
      DoAllClock(s, ops);
      RunCallback(ops);
      next := nextsoftcheck;
    }

    /** The scan of the bucket of one tick. */
    method ScanBucket()
      requires Consistent() && 0 < size
      modifies this`nextsoftcheck, this`pending, this`s, this`time, this`calls, wheel
      ensures Consistent() && s.soft <= s.ticks && s == FireTick(old(s), script)
      ensures s.soft == old(s).soft && s.ticks == old(s).ticks
    {
      hide Holds, Fields, Inv, Slot, Bucket, Skipped, NextId, Fire, FirstDue, FireTick, Due, Place;
      var steps := 0;
      InvDistinct(s);
      HoldsSize(wheel[..], s.list, size);
      SlotBound(softticks, size);
      ghost var b := Slot(softticks, size);
      HoldsAt(wheel[..], s.list, size, b);
      var c := if |wheel[Slot(softticks, size)]| != 0 then To(wheel[Slot(softticks, size)][0]) else Null;
      FirstSkipped(Bucket(s.list, b, size), softticks);
      while c != Null
        invariant Consistent() && s.soft == old(s).soft && s.ticks == old(s).ticks
        invariant Skipped(Bucket(s.list, b, size), c, softticks)
        invariant FireTick(s, script) == FireTick(old(s), script)
        decreases Due(s.list, s.soft), |Bucket(s.list, b, size)| - Place(Bucket(s.list, b, size), c)
      {
        PointerFields(wheel[..], size, pending, time, s, c, b);
        InvDistinct(s);
        if time[c.id] != softticks {
          MoveOn(s.list, b, size, c, softticks);
          c := NextId(wheel[Slot(softticks, size)], c.id);
          steps := steps + 1;
          if steps >= MAX_SOFTCLOCK_STEPS {
            nextsoftcheck := c;
            c := nextsoftcheck;
            steps := 0;
          }
        } else {
          FireTickStep(s, script);
          c := FireOne(c.id);
          steps := 0;
        }
      }
      NothingDue(s, size, script);
    }

    /** `COT_clock`: exactly what the schedule says should fire. */
    method Clock()
      requires Valid()
      modifies this`nextsoftcheck, this`pending, this`s, this`time, this`calls, this`softticks, wheel
      ensures Valid() && old(s).soft <= old(s).ticks && s == Schedule.Clock(old(s), script) && softticks == ticks
    {
      hide Holds, Fields, Inv, Quiet, FireTick, Schedule.Clock;
      InvDistinct(s);
      HoldsSize(wheel[..], s.list, size);
      while softticks != ticks
        invariant Consistent() && Quiet(s) && s.ticks == old(s).ticks && s.soft <= s.ticks && 0 < size
        invariant Schedule.Clock(s, script) == Schedule.Clock(old(s), script)
        decreases ticks - softticks
      {
        ClockStep(s, script);
        NextTick(s);
        softticks := softticks + 1;
        s := s.(soft := s.soft + 1);
        FireTickClock(s, script);
        FireTickInv(s, script);
        ScanBucket();
      }
      ClockDone(s, script);
      nextsoftcheck := Null;
    }
  }

  const MAX_SOFTCLOCK_STEPS: nat := 100

  lemma SlotBound(t: nat, size: nat)
    requires 0 < size
    ensures Slot(t, size) < size
  {
    AndBound(t, size - 1);
  }

  lemma AllOps(ops: seq<Op>)
    ensures ops[0..] == ops
  {
  }

  lemma NoOps(s: Sched)
    ensures DoAll(s, []) == s
  {
  }

  lemma NextOp(s: Sched, ops: seq<Op>)
    requires |ops| != 0
    ensures DoAll(s, ops) == DoAll(Do(s, ops[0]), ops[1..])
  {
  }

  lemma DoAllClock(s: Sched, ops: seq<Op>)
    requires Inv(s)
    ensures DoAll(s, ops).ticks == s.ticks && DoAll(s, ops).soft == s.soft && DoAll(s, ops).fired == s.fired
  {
    InvDistinct(s);
    DoAllDue(s, ops);
  }

  /** The head of the queue. */
  lemma FirstSkipped(E: seq<Entry>, t: nat)
    ensures Skipped(E, if |E| != 0 then To(E[0].id) else Null, t)
  {
  }

  /** The pointer leads to a pending callout of the bucket. */
  lemma PointerFields(w: seq<seq<nat>>, size: nat, pending: set<nat>, time: map<nat, nat>, s: Sched, p: Ptr, b: nat)
    requires Holds(w, s.list, size) && Fields(pending, time, s.list) && Inv(s) && b < size && p.To?
    requires Skipped(Bucket(s.list, b, size), p, s.soft)
    ensures b < |w| && p.id in time
    ensures var E := Bucket(s.list, b, size);
      Place(E, p) < |E| && E[Place(E, p)].id == p.id && time[p.id] == E[Place(E, p)].time
      && NextId(w[b], p.id) == Follow(E, Place(E, p))
  {
    var E := Bucket(s.list, b, size);
    var j := Place(E, p);
    BucketFrom(s.list, b, size, j);
    QueueOps(E, p.id);
    hide Bucket, NextId;
    var k :| 0 <= k < |s.list| && s.list[k] == E[j];
    assert s.list[k].id in time;
  }

  lemma MoveOn(list: seq<Entry>, b: nat, size: nat, p: Ptr, t: nat)
    requires 0 < size && p.To? && Distinct(list) && Skipped(Bucket(list, b, size), p, t)
    requires var E := Bucket(list, b, size); Place(E, p) < |E| && E[Place(E, p)].time != t
    ensures var E := Bucket(list, b, size);
      Skipped(E, Follow(E, Place(E, p)), t) && Place(E, Follow(E, Place(E, p))) == Place(E, p) + 1 <= |E|
  {
    BucketDistinct(list, b, size);
    SkippedNext(Bucket(list, b, size), p, t);
  }

  /** Schedule, wheel and pointer after the due callout under the pointer is taken out: it is
      the oldest scheduling that is due. */
  lemma FireOk(w: seq<seq<nat>>, size: nat, pending: set<nat>, time: map<nat, nat>, s: Sched, id: nat)
    requires Holds(w, s.list, size) && Fields(pending, time, s.list) && Inv(s) && 0 < size
    requires Skipped(Bucket(s.list, Slot(s.soft, size), size), To(id), s.soft) && id in time && time[id] == s.soft
    ensures Slot(s.soft, size) < size == |w|
    ensures var b, i := Slot(s.soft, size), FirstDue(s.list, s.soft);
      && i < |s.list|
      && var s' := Fire(s, i);
         && Holds(w[b := RemoveId(w[b], id)], s'.list, size) && Fields(pending - {id}, time, s'.list) && Inv(s')
         && s'.ticks == s.ticks && s'.soft == s.soft && |s'.fired| == |s.fired| + 1
         && Skipped(Bucket(s'.list, b, size), NextId(w[b], id), s.soft)
  {
    var b := Slot(s.soft, size);
    var E := Bucket(s.list, b, size);
    var j := Place(E, To(id));
    SlotBound(s.soft, size);
    InvDistinct(s);
    PointerFields(w, size, pending, time, s, To(id), b);
    BucketFirst(s.list, s.soft, size, j);
    var i := FirstDue(s.list, s.soft);
    HoldsWithout(w, s.list, size, i);
    FieldsWithout(pending, time, s.list, i);
    FireInv(s, i);
    BucketDistinct(s.list, b, size);
    BucketWithout(s.list, i, b, size);
    SkippedRemoved(E, j, s.soft);
    hide Holds, Fields, Inv, Slot, Bucket, Skipped, RemoveId, NextId;
  }

  lemma FireTickStep(s: Sched, script: nat -> seq<Op>)
    requires s.soft <= s.ticks
    ensures var i := FirstDue(s.list, s.soft);
      i < |s.list| ==>
        var s' := DoAll(Fire(s, i), script(|s.fired|));
        && s'.soft <= s'.ticks && FireTick(s, script) == FireTick(s', script)
        && s'.soft == s.soft && Due(s'.list, s'.soft) < Due(s.list, s.soft)
  {
    var i := FirstDue(s.list, s.soft);
    if i < |s.list| {
      DueWithout(s.list, i, s.soft);
      DoAllDue(Fire(s, i), script(|s.fired|));
    }
  }

  lemma NothingDue(s: Sched, size: nat, script: nat -> seq<Op>)
    requires Inv(s) && 0 < size && Skipped(Bucket(s.list, Slot(s.soft, size), size), Null, s.soft)
    ensures s.soft <= s.ticks && FireTick(s, script) == s
  {
    InvDistinct(s);
    BucketFirst(s.list, s.soft, size, |Bucket(s.list, Slot(s.soft, size), size)|);
  }

  lemma ClockStep(s: Sched, script: nat -> seq<Op>)
    requires s.soft < s.ticks
    ensures var s' := s.(soft := s.soft + 1);
      FireTick(s', script).soft <= FireTick(s', script).ticks
        && Schedule.Clock(s, script) == Schedule.Clock(FireTick(s', script), script)
  {
    FireTickClock(s.(soft := s.soft + 1), script);
  }

  lemma ClockDone(s: Sched, script: nat -> seq<Op>)
    requires s.soft == s.ticks
    ensures Schedule.Clock(s, script) == s
  {
  }

  lemma HoldsAt(wheel: seq<seq<nat>>, list: seq<Entry>, size: nat, b: nat)
    requires Holds(wheel, list, size) && b < size
    ensures b < |wheel| && wheel[b] == Ids(Bucket(list, b, size))
  {
  }

  lemma HoldsSize(wheel: seq<seq<nat>>, list: seq<Entry>, size: nat)
    requires Holds(wheel, list, size)
    ensures 0 < size == |wheel|
  {
  }

  /** The scan pointer after an entry is taken off the list. */
  lemma CursorWithout(list: seq<Entry>, i: nat, size: nat, p: Ptr, p': Ptr, t: nat)
    requires 0 < size && i < |list| && Distinct(list)
    requires var E := Bucket(list, Slot(list[i].time, size), size);
      p' == if p == To(list[i].id) then Follow(E, Find(E, list[i].id)) else p
    ensures Skipped(Bucket(list, Slot(t, size), size), p, t) ==>
      Skipped(Bucket(Without(list, i), Slot(t, size), size), p', t)
  {
    hide Slot, Bucket;
    var b := Slot(t, size);
    var E := Bucket(list, b, size);
    BucketWithout(list, i, b, size);
    BucketDistinct(list, b, size);
    if Skipped(E, p, t) {
      if Slot(list[i].time, size) == b {
        BucketFind(list, i, size);
        SkippedWithout(E, Find(E, list[i].id), p, t);
      } else {
        NotElsewhere(list, i, b, size);
      }
    }
  }

  /** An entry is in no other bucket. */
  lemma NotElsewhere(list: seq<Entry>, i: nat, b: nat, size: nat)
    requires 0 < size && i < |list| && Distinct(list) && Slot(list[i].time, size) != b
    ensures Find(Bucket(list, b, size), list[i].id) == |Bucket(list, b, size)|
  {
    hide Slot, Bucket;
    var E := Bucket(list, b, size);
    forall k | 0 <= k < |E|
      ensures E[k].id != list[i].id
    {
      BucketFrom(list, b, size, k);
    }
  }

  /** Schedule, wheel and scan pointer after a pending callout is taken out of its queue. */
  lemma UnlinkOk(w: seq<seq<nat>>, size: nat, pending: set<nat>, time: map<nat, nat>, s: Sched, id: nat, p: Ptr, t: nat)
    requires Holds(w, s.list, size) && Fields(pending, time, s.list) && Inv(s) && id in pending
    ensures id in time && 0 < size == |w| && Slot(time[id], size) < size
    ensures var b, s' := Slot(time[id], size), Cancel(s, id);
      && Holds(w[b := RemoveId(w[b], id)], s'.list, size) && Fields(pending - {id}, time, s'.list) && Inv(s')
      && s'.ticks == s.ticks && s'.soft == s.soft && s'.fired == s.fired
      && (Skipped(Bucket(s.list, Slot(t, size), size), p, t) ==>
          Skipped(Bucket(s'.list, Slot(t, size), size), if p == To(id) then NextId(w[b], id) else p, t))
  {
    var i := Find(s.list, id);
    assert s.list[i].id == id && time[id] == s.list[i].time;
    var b := Slot(time[id], size);
    InvDistinct(s);
    CancelInv(s, id);
    HoldsWithout(w, s.list, size, i);
    FieldsWithout(pending, time, s.list, i);
    BucketFind(s.list, i, size);
    QueueOps(Bucket(s.list, b, size), id);
    CursorWithout(s.list, i, size, p, if p == To(id) then NextId(w[b], id) else p, t);
    hide Inv, Skipped, Bucket, Slot, RemoveId, NextId;
  }

  lemma ResetIs(s: Sched, id: nat, after: int)
    requires Inv(s)
    ensures var s' := Cancel(s, id);
      && Find(s'.list, id) == |s'.list| && s'.ticks == s.ticks && s'.serial == s.serial
      && (!Pending(s, id) ==> s' == s)
      && var n: nat := if after <= 0 then 1 else after;
         DoReset(s, id, after) == s'.(list := s'.list + [Entry(id, s.ticks + n, s.serial)], serial := s.serial + 1)
  {
    NotPending(s, id);
  }

  lemma CursorAppend(list: seq<Entry>, e: Entry, size: nat, p: Ptr, t: nat)
    requires 0 < size && e.time != t
    ensures Skipped(Bucket(list, Slot(t, size), size), p, t) ==> Skipped(Bucket(list + [e], Slot(t, size), size), p, t)
  {
    hide Slot, Bucket;
    var b := Slot(t, size);
    BucketAppend(list, [e], b, size);
    BucketOne(e, b, size);
    if Skipped(Bucket(list, b, size), p, t) {
      SkippedAppend(Bucket(list, b, size), e, p, t);
      assert Bucket(list, b, size) + [] == Bucket(list, b, size);
    }
  }

  /** Each pending callout is in the queue of its time's bucket, once, and in no other. */
  lemma InOneBucket(w: seq<seq<nat>>, size: nat, pending: set<nat>, time: map<nat, nat>, s: Sched, id: nat, b: nat)
    requires Holds(w, s.list, size) && Fields(pending, time, s.list) && Inv(s) && b < size
    ensures id in w[b] <==> id in pending && Slot(time[id], size) == b
    ensures forall i, j :: 0 <= i < j < |w[b]| ==> w[b][i] != w[b][j]
  {
    hide Bucket, Slot, Inv;
    InvDistinct(s);
    var E := Bucket(s.list, b, size);
    BucketDistinct(s.list, b, size);
    if id in w[b] {
      var k :| 0 <= k < |w[b]| && w[b][k] == id;
      BucketFrom(s.list, b, size, k);
    }
    if id in pending && Slot(time[id], size) == b {
      BucketFind(s.list, Find(s.list, id), size);
      assert w[b][Find(E, id)] == id;
    }
  }
}
