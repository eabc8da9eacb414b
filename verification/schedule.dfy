/** What the timers of bin/mudband/common/callout.c are for, without the wheel: one list of
    pending callouts in the order they were scheduled. */
module Schedule {
  /** A pending callout: which, when, and the running number of its scheduling. */
  datatype Entry = Entry(id: nat, time: nat, serial: nat)

  datatype Op = Reset(id: nat, after: int) | Stop(id: nat)

  /** Pending callouts, clock, number of schedulings so far; what fired, in order; which
      schedulings were cancelled. */
  datatype Sched = Sched(list: seq<Entry>, ticks: nat, soft: nat, serial: nat, fired: seq<Entry>, cancelled: set<nat>)

  // ---------------------------------------------------------------- operations

  function Without(list: seq<Entry>, i: nat): (r: seq<Entry>)
    requires i < |list|
    ensures |r| == |list| - 1
    ensures forall k :: 0 <= k < |r| ==> r[k] == list[if k < i then k else k + 1]
  {
    list[..i] + list[i + 1..]
  }

  /** Position of callout `id`, or the length if it is not pending. */
  function Find(list: seq<Entry>, id: nat): (r: nat)
    ensures r <= |list| && (forall k :: 0 <= k < r ==> list[k].id != id) && (r < |list| ==> list[r].id == id)
  {
    if |list| == 0 then 0 else if list[0].id == id then 0 else 1 + Find(list[1..], id)
  }

  predicate Pending(s: Sched, id: nat) {
    Find(s.list, id) < |s.list|
  }

  function Cancel(s: Sched, id: nat): Sched {
    var i := Find(s.list, id);
    if i < |s.list| then s.(list := Without(s.list, i), cancelled := s.cancelled + {s.list[i].serial}) else s
  }

  /** Schedule `id`, at least one tick ahead, in place of any earlier scheduling. */
  function DoReset(s: Sched, id: nat, after: int): Sched {
    var s' := Cancel(s, id);
    var n: nat := if after <= 0 then 1 else after;
    s'.(list := s'.list + [Entry(id, s.ticks + n, s.serial)], serial := s.serial + 1)
  }

  function Do(s: Sched, op: Op): Sched {
    match op
    case Reset(id, after) => DoReset(s, id, after)
    case Stop(id) => Cancel(s, id)
  }

  function DoAll(s: Sched, ops: seq<Op>): Sched
    decreases |ops|
  {
    if |ops| == 0 then s else DoAll(Do(s, ops[0]), ops[1..])
  }

  /** First entry that is due at the current tick, or the length. */
  function FirstDue(list: seq<Entry>, t: nat): (r: nat)
    ensures r <= |list| && (forall k :: 0 <= k < r ==> list[k].time != t) && (r < |list| ==> list[r].time == t)
  {
    if |list| == 0 then 0 else if list[0].time == t then 0 else 1 + FirstDue(list[1..], t)
  }

  /** How many entries are due. */
  function Due(list: seq<Entry>, t: nat): nat {
    if |list| == 0 then 0 else (if list[0].time == t then 1 else 0) + Due(list[1..], t)
  }

  lemma {:induction false} DueAppend(a: seq<Entry>, b: seq<Entry>, t: nat)
    ensures Due(a + b, t) == Due(a, t) + Due(b, t)
  {
    if |a| == 0 {
      assert a + b == b;
    } else {
      assert (a + b)[1..] == a[1..] + b;
      DueAppend(a[1..], b, t);
    }
  }

  lemma DueOne(e: Entry, t: nat)
    ensures Due([e], t) == if e.time == t then 1 else 0
  {
    assert [e][1..] == [];
  }

  lemma DueWithout(list: seq<Entry>, i: nat, t: nat)
    requires i < |list|
    ensures Due(list, t) == Due(Without(list, i), t) + if list[i].time == t then 1 else 0
  {
    assert list == list[..i] + ([list[i]] + list[i + 1..]);
    DueAppend(list[..i], [list[i]] + list[i + 1..], t);
    DueAppend([list[i]], list[i + 1..], t);
    DueAppend(list[..i], list[i + 1..], t);
    DueOne(list[i], t);
  }

  lemma DoDue(s: Sched, op: Op)
    requires s.soft <= s.ticks
    ensures Do(s, op).ticks == s.ticks && Do(s, op).soft == s.soft && Do(s, op).fired == s.fired
    ensures Due(Do(s, op).list, s.soft) <= Due(s.list, s.soft)
  {
    var i := Find(s.list, op.id);
    if i < |s.list| {
      DueWithout(s.list, i, s.soft);
    }
    if op.Reset? {
      var s' := Cancel(s, op.id);
      var e := DoReset(s, op.id, op.after).list[|s'.list|];
      DueAppend(s'.list, [e], s.soft);
      DueOne(e, s.soft);
    }
  }

  lemma {:induction false} DoAllDue(s: Sched, ops: seq<Op>)
    requires s.soft <= s.ticks
    ensures DoAll(s, ops).ticks == s.ticks && DoAll(s, ops).soft == s.soft && DoAll(s, ops).fired == s.fired
    ensures Due(DoAll(s, ops).list, s.soft) <= Due(s.list, s.soft)
    decreases |ops|
  {
    if |ops| != 0 {
      DoDue(s, ops[0]);
      DoAllDue(Do(s, ops[0]), ops[1..]);
    }
  }

  /** Take the entry at `i` off the list and fire it. */
  function Fire(s: Sched, i: nat): Sched
    requires i < |s.list|
  {
    s.(list := Without(s.list, i), fired := s.fired + [s.list[i]])
  }

  /** Fire everything that is due at the current tick, oldest scheduling first; the n-th
      callback to run does `script(n)`. */
  function FireTick(s: Sched, script: nat -> seq<Op>): Sched
    requires s.soft <= s.ticks
    decreases Due(s.list, s.soft)
  {
    var i := FirstDue(s.list, s.soft);
    if i == |s.list| then s
    else
      DueWithout(s.list, i, s.soft);
      DoAllDue(Fire(s, i), script(|s.fired|));
      FireTick(DoAll(Fire(s, i), script(|s.fired|)), script)
  }

  lemma {:induction false} FireTickClock(s: Sched, script: nat -> seq<Op>)
    requires s.soft <= s.ticks
    ensures FireTick(s, script).ticks == s.ticks && FireTick(s, script).soft == s.soft
    decreases Due(s.list, s.soft)
  {
    var i := FirstDue(s.list, s.soft);
    if i != |s.list| {
      DueWithout(s.list, i, s.soft);
      DoAllDue(Fire(s, i), script(|s.fired|));
      FireTickClock(DoAll(Fire(s, i), script(|s.fired|)), script);
    }
  }

  /** All ticks up to now. */
  function Clock(s: Sched, script: nat -> seq<Op>): Sched
    requires s.soft <= s.ticks
    decreases s.ticks - s.soft
  {
    if s.soft == s.ticks then s
    else
      var s' := s.(soft := s.soft + 1);
      FireTickClock(s', script);
      Clock(FireTick(s', script), script)
  }

  // ---------------------------------------------------------------- what holds in every run

  /** `a` is earlier than `b`: by time, then by order of scheduling. */
  predicate Before(a: Entry, b: Entry) {
    a.time < b.time || (a.time == b.time && a.serial < b.serial)
  }

  ghost predicate Has(list: seq<Entry>, n: nat) {
    exists k :: 0 <= k < |list| && list[k].serial == n
  }

  /** The list is in order of scheduling, one entry a callout, none overdue. */
  ghost predicate Listed(s: Sched) {
    && s.soft <= s.ticks
    && (forall i, j :: 0 <= i < j < |s.list| ==> s.list[i].serial < s.list[j].serial && s.list[i].id != s.list[j].id)
    && (forall i :: 0 <= i < |s.list| ==> s.list[i].serial < s.serial && s.soft <= s.list[i].time)
  }

  /** Whatever has fired did so once, in order, before everything that is still to come. */
  ghost predicate InOrder(s: Sched) {
    && (forall i :: 0 <= i < |s.fired| ==> s.fired[i].serial < s.serial && s.fired[i].time <= s.soft)
    && (forall i, j :: 0 <= i < j < |s.fired| ==>
      Before(s.fired[i], s.fired[j]) && s.fired[i].serial != s.fired[j].serial)
    && (forall i, j :: 0 <= i < |s.fired| && 0 <= j < |s.list| ==>
      Before(s.fired[i], s.list[j]) && s.fired[i].serial != s.list[j].serial)
  }

  /** Every scheduling is pending, fired or cancelled, and only one of these. */
  ghost predicate Counted(s: Sched) {
    && (forall n :: n in s.cancelled ==> n < s.serial && !Has(s.list, n) && !Has(s.fired, n))
    && (forall n :: 0 <= n < s.serial ==> Has(s.list, n) || Has(s.fired, n) || n in s.cancelled)
  }

  ghost predicate Inv(s: Sched) {
    Listed(s) && InOrder(s) && Counted(s)
  }

  /** Nothing is due. */
  ghost predicate Quiet(s: Sched) {
    forall i :: 0 <= i < |s.list| ==> s.soft < s.list[i].time
  }

  lemma HasWithout(list: seq<Entry>, i: nat, n: nat)
    requires i < |list| && forall k, l :: 0 <= k < l < |list| ==> list[k].serial < list[l].serial
    ensures Has(Without(list, i), n) <==> Has(list, n) && list[i].serial != n
  {
    var r := Without(list, i);
    if Has(list, n) && list[i].serial != n {
      var k :| 0 <= k < |list| && list[k].serial == n;
      assert r[if k < i then k else k - 1] == list[k];
    }
  }

  lemma HasAppend(list: seq<Entry>, e: Entry, n: nat)
    ensures Has(list + [e], n) <==> Has(list, n) || e.serial == n
  {
    assert (list + [e])[|list|] == e;
    if Has(list, n) {
      var k :| 0 <= k < |list| && list[k].serial == n;
      assert (list + [e])[k] == list[k];
    }
  }

  lemma CancelInv(s: Sched, id: nat)
    requires Inv(s)
    ensures Inv(Cancel(s, id)) && (Quiet(s) ==> Quiet(Cancel(s, id)))
  {
    var i := Find(s.list, id);
    if i < |s.list| {
      forall n ensures Has(Without(s.list, i), n) <==>
        Has(s.list, n) && s.list[i].serial != n { HasWithout(s.list, i, n); }
      assert !Has(s.fired, s.list[i].serial);
      hide Has;
    }
  }

  lemma AppendInv(s: Sched, e: Entry)
    requires Inv(s) && e.serial == s.serial && s.ticks < e.time && Find(s.list, e.id) == |s.list|
    ensures var s' := s.(list := s.list + [e], serial := s.serial + 1); Inv(s') && (Quiet(s) ==> Quiet(s'))
  {
    var s' := s.(list := s.list + [e], serial := s.serial + 1);
    forall n ensures Has(s'.list, n) <==> Has(s.list, n) || e.serial == n { HasAppend(s.list, e, n); }
    assert !Has(s.fired, e.serial);
    hide Has;
  }

  lemma NotPending(s: Sched, id: nat)
    requires Inv(s)
    ensures Find(Cancel(s, id).list, id) == |Cancel(s, id).list|
  {
  }

  lemma DoInv(s: Sched, op: Op)
    requires Inv(s)
    ensures Inv(Do(s, op)) && (Quiet(s) ==> Quiet(Do(s, op)))
  {
    hide Inv, Quiet;
    CancelInv(s, op.id);
    NotPending(s, op.id);
    if op.Reset? {
      var n: nat := if op.after <= 0 then 1 else op.after;
      AppendInv(Cancel(s, op.id), Entry(op.id, s.ticks + n, s.serial));
    }
  }

  lemma {:induction false} DoAllInv(s: Sched, ops: seq<Op>)
    requires Inv(s)
    ensures Inv(DoAll(s, ops)) && (Quiet(s) ==> Quiet(DoAll(s, ops)))
    decreases |ops|
  {
    hide Inv, Quiet, Do;
    if |ops| != 0 {
      DoInv(s, ops[0]);
      DoAllInv(Do(s, ops[0]), ops[1..]);
    }
  }

  lemma FireInv(s: Sched, i: nat)
    requires Inv(s) && i == FirstDue(s.list, s.soft) < |s.list|
    ensures Inv(Fire(s, i))
  {
    FireInOrder(s, i);
    FireCounted(s, i);
    hide InOrder, Counted;
  }

  lemma FireInOrder(s: Sched, i: nat)
    requires Listed(s) && InOrder(s) && i == FirstDue(s.list, s.soft) < |s.list|
    ensures InOrder(Fire(s, i))
  {
  }

  lemma FireCounted(s: Sched, i: nat)
    requires Inv(s) && i < |s.list|
    ensures Counted(Fire(s, i))
  {
    var e := s.list[i];
    forall n ensures Has(Without(s.list, i), n) <==> Has(s.list, n) && e.serial != n { HasWithout(s.list, i, n); }
    forall n ensures Has(s.fired + [e], n) <==> Has(s.fired, n) || e.serial == n { HasAppend(s.fired, e, n); }
    assert Has(s.list, e.serial);
    hide Has, InOrder;
  }

  lemma InvClock(s: Sched)
    requires Inv(s)
    ensures s.soft <= s.ticks
  {
  }

  /** On to the next tick. */
  lemma NextTick(s: Sched)
    requires Inv(s) && Quiet(s) && s.soft < s.ticks
    ensures Inv(s.(soft := s.soft + 1))
  {
    hide Has, Before;
  }

  lemma {:induction false} FireTickInv(s: Sched, script: nat -> seq<Op>)
    requires Inv(s)
    ensures s.soft <= s.ticks && Inv(FireTick(s, script)) && Quiet(FireTick(s, script))
    decreases Due(s.list, s.soft)
  {
    InvClock(s);
    var i := FirstDue(s.list, s.soft);
    if i != |s.list| {
      DueWithout(s.list, i, s.soft);
      DoAllDue(Fire(s, i), script(|s.fired|));
      FireInv(s, i);
      DoAllInv(Fire(s, i), script(|s.fired|));
      FireTickInv(DoAll(Fire(s, i), script(|s.fired|)), script);
    }
  }

  /** After the clock has run, everything pending lies in the future. */
  lemma {:induction false} ClockInv(s: Sched, script: nat -> seq<Op>)
    requires Inv(s) && Quiet(s)
    ensures s.soft <= s.ticks && Inv(Clock(s, script)) && Quiet(Clock(s, script))
    ensures Clock(s, script).soft == Clock(s, script).ticks == s.ticks
    decreases s.ticks - s.soft
  {
    hide Listed, InOrder, Counted, Quiet, FireTick;
    InvClock(s);
    if s.soft != s.ticks {
      var s' := s.(soft := s.soft + 1);
      NextTick(s);
      FireTickClock(s', script);
      FireTickInv(s', script);
      ClockInv(FireTick(s', script), script);
    }
  }

  // ---------------------------------------------------------------- what becomes of an entry

  /** Entries only leave the list by firing or by being cancelled. */
  ghost predicate Accounted(s: Sched, s': Sched) {
    && s.fired <= s'.fired && s.cancelled <= s'.cancelled
    && forall e :: e in s.list ==> e in s'.list || e in s'.fired[|s.fired|..] || e.serial in s'.cancelled
  }

  lemma AccountedTrans(a: Sched, b: Sched, c: Sched)
    requires Accounted(a, b) && Accounted(b, c)
    ensures Accounted(a, c)
  {
    forall e | e in a.list
      ensures e in c.list || e in c.fired[|a.fired|..] || e.serial in c.cancelled
    {
      if e in b.fired[|a.fired|..] {
        var k :| 0 <= k < |b.fired| - |a.fired| && b.fired[|a.fired|..][k] == e;
        assert c.fired[|a.fired|..][k] == e;
      } else if e in b.list && e in c.fired[|b.fired|..] {
        var k :| 0 <= k < |c.fired| - |b.fired| && c.fired[|b.fired|..][k] == e;
        assert c.fired[|a.fired|..][k + |b.fired| - |a.fired|] == e;
      }
    }
  }

  lemma InWithout(list: seq<Entry>, i: nat)
    requires i < |list|
    ensures forall e :: e in list ==> e in Without(list, i) || e == list[i]
  {
    forall e | e in list && e != list[i]
      ensures e in Without(list, i)
    {
      var k :| 0 <= k < |list| && list[k] == e;
      assert Without(list, i)[if k < i then k else k - 1] == e;
    }
  }

  lemma DoAccounted(s: Sched, op: Op)
    ensures Accounted(s, Do(s, op))
  {
    var i := Find(s.list, op.id);
    if i < |s.list| {
      InWithout(s.list, i);
    }
  }

  lemma {:induction false} DoAllAccounted(s: Sched, ops: seq<Op>)
    ensures Accounted(s, DoAll(s, ops))
    decreases |ops|
  {
    if |ops| != 0 {
      DoAccounted(s, ops[0]);
      DoAllAccounted(Do(s, ops[0]), ops[1..]);
      AccountedTrans(s, Do(s, ops[0]), DoAll(s, ops));
    }
  }

  lemma FireAccounted(s: Sched, i: nat)
    requires i < |s.list|
    ensures Accounted(s, Fire(s, i))
  {
    InWithout(s.list, i);
    assert (s.fired + [s.list[i]])[|s.fired|..] == [s.list[i]];
  }

  lemma {:induction false} FireTickAccounted(s: Sched, script: nat -> seq<Op>)
    requires s.soft <= s.ticks
    ensures Accounted(s, FireTick(s, script))
    decreases Due(s.list, s.soft)
  {
    var i := FirstDue(s.list, s.soft);
    if i != |s.list| {
      DueWithout(s.list, i, s.soft);
      DoAllDue(Fire(s, i), script(|s.fired|));
      var a := Fire(s, i);
      var b := DoAll(a, script(|s.fired|));
      FireAccounted(s, i);
      DoAllAccounted(a, script(|s.fired|));
      FireTickAccounted(b, script);
      hide Accounted;
      AccountedTrans(s, a, b);
      AccountedTrans(s, b, FireTick(b, script));
    }
  }

  lemma {:induction false} ClockAccounted(s: Sched, script: nat -> seq<Op>)
    requires s.soft <= s.ticks
    ensures Accounted(s, Clock(s, script))
    decreases s.ticks - s.soft
  {
    if s.soft != s.ticks {
      var s' := s.(soft := s.soft + 1);
      FireTickClock(s', script);
      FireTickAccounted(s', script);
      ClockAccounted(FireTick(s', script), script);
      AccountedTrans(s', FireTick(s', script), Clock(s, script));
    }
  }

  /** A tick fires entries of that tick. */
  lemma {:induction false} FireTickLate(s: Sched, script: nat -> seq<Op>)
    requires s.soft <= s.ticks
    ensures s.fired <= FireTick(s, script).fired
    ensures forall k :: |s.fired| <= k < |FireTick(s, script).fired| ==> FireTick(s, script).fired[k].time == s.soft
    decreases Due(s.list, s.soft)
  {
    var i := FirstDue(s.list, s.soft);
    if i != |s.list| {
      DueWithout(s.list, i, s.soft);
      DoAllDue(Fire(s, i), script(|s.fired|));
      FireTickLate(DoAll(Fire(s, i), script(|s.fired|)), script);
    }
  }

  lemma {:induction false} ClockLate(s: Sched, script: nat -> seq<Op>)
    requires s.soft <= s.ticks
    ensures s.fired <= Clock(s, script).fired
    ensures forall k :: |s.fired| <= k < |Clock(s, script).fired| ==> s.soft < Clock(s, script).fired[k].time
    decreases s.ticks - s.soft
  {
    hide FireTick;
    if s.soft != s.ticks {
      var s' := s.(soft := s.soft + 1);
      FireTickClock(s', script);
      FireTickLate(s', script);
      ClockLate(FireTick(s', script), script);
    }
  }

  /** The clock fires exactly what is still due: every callout whose time has come fires in
      this call, unless a callback cancelled it; everything that fires had its time come since
      the last call; and the firings are in order of time and, within a tick, of scheduling,
      each scheduling at most once. */
  lemma ClockFires(s: Sched, script: nat -> seq<Op>)
    requires Inv(s) && Quiet(s)
    ensures var s' := Clock(s, script);
      && s.fired <= s'.fired && Inv(s') && Quiet(s') && s'.soft == s.ticks
      && (forall e :: e in s.list && e.time <= s.ticks ==> e in s'.fired[|s.fired|..] || e.serial in s'.cancelled)
      && (forall k :: |s.fired| <= k < |s'.fired| ==> s.soft < s'.fired[k].time <= s.ticks)
      && (forall k, l :: 0 <= k < l < |s'.fired| ==>
        Before(s'.fired[k], s'.fired[l]) && s'.fired[k].serial != s'.fired[l].serial)
  {
    ClockInv(s, script);
    ClockAccounted(s, script);
    ClockLate(s, script);
    hide Clock;
  }

  // ---------------------------------------------------------------- who cancels

  /** One of the callbacks numbered from `lo` to `hi` resets or stops callout `id`. */
  ghost predicate Touched(script: nat -> seq<Op>, lo: nat, hi: nat, id: nat) {
    exists k: nat, j: nat :: lo <= k < hi && j < |script(k)| && script(k)[j].id == id
  }

  /** What becomes of a pending callout: it stays, it fires, or a callback that ran touched it. */
  ghost predicate Fate(s: Sched, s': Sched, script: nat -> seq<Op>, e: Entry) {
    && s.fired <= s'.fired
    && (e in s'.list || e in s'.fired[|s.fired|..] || Touched(script, |s.fired|, |s'.fired|, e.id))
  }

  lemma FateTrans(a: Sched, b: Sched, c: Sched, script: nat -> seq<Op>, e: Entry)
    requires Fate(a, b, script, e) && b.fired <= c.fired && (e in b.list ==> Fate(b, c, script, e))
    ensures Fate(a, c, script, e)
  {
    if e in b.fired[|a.fired|..] {
      var k :| 0 <= k < |b.fired| - |a.fired| && b.fired[|a.fired|..][k] == e;
      assert c.fired[|a.fired|..][k] == e;
    } else if e in b.list && e in c.fired[|b.fired|..] {
      var k :| 0 <= k < |c.fired| - |b.fired| && c.fired[|b.fired|..][k] == e;
      assert c.fired[|a.fired|..][k + |b.fired| - |a.fired|] == e;
    }
  }

  /** An operation takes only its own callout off the list. */
  lemma OthersStay(s: Sched, op: Op, e: Entry)
    requires e in s.list && e.id != op.id
    ensures e in Do(s, op).list
  {
    var i := Find(s.list, op.id);
    if i < |s.list| {
      InWithout(s.list, i);
    }
  }

  lemma {:induction false} AllOthersStay(s: Sched, ops: seq<Op>, e: Entry)
    requires e in s.list && forall j :: 0 <= j < |ops| ==> ops[j].id != e.id
    ensures e in DoAll(s, ops).list
    decreases |ops|
  {
    hide Do;
    if |ops| != 0 {
      OthersStay(s, ops[0], e);
      AllOthersStay(Do(s, ops[0]), ops[1..], e);
    }
  }

  /** One callout fires and its callback runs. */
  lemma OneFate(s: Sched, i: nat, script: nat -> seq<Op>, e: Entry)
    requires i < |s.list| && e in s.list && s.soft <= s.ticks
    ensures Fate(s, DoAll(Fire(s, i), script(|s.fired|)), script, e)
  {
    hide DoAll, Due;
    var f, ops := Fire(s, i), script(|s.fired|);
    DoAllDue(f, ops);
    var s' := DoAll(f, ops);
    if e == s.list[i] {
      assert s'.fired[|s.fired|..][0] == e;
    } else {
      InWithout(s.list, i);
      if forall j :: 0 <= j < |ops| ==> ops[j].id != e.id {
        AllOthersStay(f, ops, e);
      } else {
        var j :| 0 <= j < |ops| && ops[j].id == e.id;
        assert Touched(script, |s.fired|, |s'.fired|, e.id);
      }
    }
  }

  lemma {:induction false} TickFate(s: Sched, script: nat -> seq<Op>, e: Entry)
    requires s.soft <= s.ticks && e in s.list
    ensures Fate(s, FireTick(s, script), script, e)
    decreases Due(s.list, s.soft)
  {
    hide Fate, DoAll, Due, Fire;
    var i := FirstDue(s.list, s.soft);
    if i == |s.list| {
      NoFate(s, script, e);
    } else {
      var s' := DoAll(Fire(s, i), script(|s.fired|));
      LessDue(s, i, script);
      OneFate(s, i, script, e);
      FireTickAccounted(s', script);
      FiredOn(s', FireTick(s', script));
      if e in s'.list {
        TickFate(s', script, e);
      }
      FateTrans(s, s', FireTick(s', script), script, e);
    }
  }

  lemma LessDue(s: Sched, i: nat, script: nat -> seq<Op>)
    requires s.soft <= s.ticks && i < |s.list| && s.list[i].time == s.soft
    ensures var s' := DoAll(Fire(s, i), script(|s.fired|));
      s'.soft == s.soft && s'.ticks == s.ticks && Due(s'.list, s'.soft) < Due(s.list, s.soft)
  {
    DueWithout(s.list, i, s.soft);
    DoAllDue(Fire(s, i), script(|s.fired|));
    hide DoAll;
  }

  lemma NoFate(s: Sched, script: nat -> seq<Op>, e: Entry)
    requires e in s.list
    ensures Fate(s, s, script, e)
  {
  }

  lemma FiredOn(s: Sched, s': Sched)
    requires Accounted(s, s')
    ensures s.fired <= s'.fired
  {
  }

  lemma {:induction false} ClockFate(s: Sched, script: nat -> seq<Op>, e: Entry)
    requires s.soft <= s.ticks && e in s.list
    ensures Fate(s, Clock(s, script), script, e)
    decreases s.ticks - s.soft
  {
    hide Fate, FireTick, Accounted;
    if s.soft == s.ticks {
      NoFate(s, script, e);
    } else {
      var s1 := s.(soft := s.soft + 1);
      FireTickClock(s1, script);
      var s2 := FireTick(s1, script);
      TickFate(s1, script, e);
      FateSoft(s, s1, s2, script, e);
      ClockAccounted(s2, script);
      FiredOn(s2, Clock(s2, script));
      if e in s2.list {
        ClockFate(s2, script, e);
      }
      FateTrans(s, s2, Clock(s2, script), script, e);
    }
  }

  lemma FateSoft(s: Sched, s1: Sched, s2: Sched, script: nat -> seq<Op>, e: Entry)
    requires Fate(s1, s2, script, e) && s1.fired == s.fired
    ensures Fate(s, s2, script, e)
  {
  }

  /** A callout whose time has come fires, unless a callback of this very run resets or stops
      it. */
  lemma DueFires(s: Sched, script: nat -> seq<Op>, e: Entry)
    requires Inv(s) && Quiet(s) && e in s.list && e.time <= s.ticks
    ensures s.soft <= s.ticks
    ensures var s' := Clock(s, script);
      && s.fired <= s'.fired
      && (e in s'.fired[|s.fired|..] || Touched(script, |s.fired|, |s'.fired|, e.id))
  {
    hide Clock, Touched;
    ClockInv(s, script);
    ClockFate(s, script, e);
    var s' := Clock(s, script);
    assert e !in s'.list;
  }

  /** A reset takes effect after the given number of ticks, at least one: if no callback
      interferes, this scheduling fires when the clock gets there; before, it is pending. */
  lemma ResetFires(s: Sched, id: nat, after: int, now: nat, script: nat -> seq<Op>)
    requires Inv(s) && Quiet(s) && s.ticks <= now
    requires forall k: nat, j: nat :: j < |script(k)| ==> script(k)[j].id != id
    ensures DoReset(s, id, after).soft <= now
    ensures var s' := Clock(DoReset(s, id, after).(ticks := now), script);
      if 1 <= now - s.ticks && after <= now - s.ticks then
        exists k :: |s.fired| <= k < |s'.fired| && s'.fired[k].id == id && s'.fired[k].serial == s.serial
      else Pending(s', id) && !Has(s'.fired, s.serial)
  {
    hide Clock, Has, Find, Listed, InOrder, Counted;
    var s0 := DoReset(s, id, after);
    var s1 := s0.(ticks := now);
    DoInv(s, Reset(id, after));
    ResetEntry(s, id, after);
    var e := s0.list[|s0.list| - 1];
    LaterInv(s0, now);
    InvClock(s1);
    var s' := Clock(s1, script);
    ClockFires(s1, script);
    ClockFate(s1, script, e);
    assert !Touched(script, |s1.fired|, |s'.fired|, id);
    if e.time <= now {
      DueFires(s1, script, e);
      var k :| 0 <= k < |s'.fired| - |s.fired| && s'.fired[|s.fired|..][k] == e;
      assert s'.fired[|s.fired| + k] == e;
    } else {
      StillPending(s', e, |s.fired|);
    }
  }

  lemma ResetEntry(s: Sched, id: nat, after: int)
    ensures var s0 := DoReset(s, id, after);
      && 0 < |s0.list| && s0.fired == s.fired && s0.ticks == s.ticks && s0.soft == s.soft
      && s0.list[|s0.list| - 1] == Entry(id, if after <= 1 then s.ticks + 1 else s.ticks + after, s.serial)
  {
    hide Find;
  }

  lemma StillPending(s: Sched, e: Entry, n: nat)
    requires Inv(s) && n <= |s.fired| && (e in s.list || e in s.fired[n..]) && s.soft < e.time
    ensures Pending(s, e.id) && !Has(s.fired, e.serial)
  {
    forall k | 0 <= k < |s.fired| - n
      ensures s.fired[n..][k] != e
    {
      assert s.fired[n..][k] == s.fired[n + k];
    }
    assert e !in s.fired[n..];
    var j :| 0 <= j < |s.list| && s.list[j] == e;
  }

  /** A stopped callout does not fire, whatever the other callbacks do, until it is reset. */
  lemma StopSilences(s: Sched, id: nat, now: nat, script: nat -> seq<Op>, e: Entry)
    requires Inv(s) && Quiet(s) && s.ticks <= now && e in s.list && e.id == id
    ensures Cancel(s, id).soft <= now && !Pending(Cancel(s, id), id)
    ensures !Has(Clock(Cancel(s, id).(ticks := now), script).fired, e.serial)
  {
    hide Clock, Has, Listed, InOrder;
    var s0 := Cancel(s, id);
    CancelInv(s, id);
    NotPending(s, id);
    LaterInv(s0, now);
    InvClock(s0.(ticks := now));
    ClockInv(s0.(ticks := now), script);
    ClockAccounted(s0.(ticks := now), script);
    OneEntry(s, id, e);
    assert e.serial in s0.cancelled;
  }

  lemma OneEntry(s: Sched, id: nat, e: Entry)
    requires Inv(s) && e in s.list && e.id == id
    ensures Find(s.list, id) < |s.list| && s.list[Find(s.list, id)] == e
  {
  }

  lemma LaterInv(s: Sched, now: nat)
    requires Inv(s) && Quiet(s) && s.ticks <= now
    ensures Inv(s.(ticks := now)) && Quiet(s.(ticks := now))
  {
    hide Has, Before;
  }
}
