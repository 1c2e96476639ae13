/** What a time-to-live means, what sweeps do, and when calls fail: told from the calls and the clock alone. */
module StoreExpiry {
  import opened Common
  import opened Stores
  import opened StoreLaws

  // ---------------------------------------------------------------- any store's items have a history

  lemma {:induction false} HasHistory(items: Items, clock: Time) returns (history: seq<Event>)
    ensures Agrees(items, history, clock)
    decreases |items|
  {
    if items == map[] {
      history := [];
    } else {
      var k :| k in items;
      var rest := items - {k};
      assert |rest| < |items| by {
        assert rest.Keys == items.Keys - {k} && |rest| == |rest.Keys| && |items| == |items.Keys|;
      }
      var before := HasHistory(rest, clock);
      WritingAgrees(rest, before, clock, k, items[k]);
      history := before + [Wrote(k, items[k])];
      assert rest[k := items[k]] == items;
    }
  }

  // ---------------------------------------------------------------- the last call that matters for a key

  /** The call writes or removes the key. */
  predicate Touches(op: Op, key: Key) { (op.Set? || op.Delete?) && op.key == key }

  /** The history behind the first n calls. */
  function HistoryAt(history: seq<Event>, calls: seq<Call>, failed: seq<bool>, n: nat): seq<Event>
    requires n <= |calls| == |failed|
  {
    if n == 0 then history
    else
      var before := HistoryAt(history, calls, failed, n - 1);
      if failed[n - 1] then before else Logged(before, calls[n - 1].op)
  }

  lemma {:induction false} HistoryAtLater(history: seq<Event>, calls: seq<Call>, failed: seq<bool>, n: nat)
    requires 1 <= n <= |calls| == |failed|
    ensures
      var next := if failed[0] then history else Logged(history, calls[0].op);
      HistoryAt(history, calls, failed, n) == HistoryAt(next, calls[1..], failed[1..], n - 1)
  {
    if n > 1 {
      HistoryAtLater(history, calls, failed, n - 1);
    }
  }

  lemma {:induction false} ResultAt(history: seq<Event>, calls: seq<Call>, failed: seq<bool>, n: nat)
    requires n < |calls| == |failed|
    ensures
      var results := RunHistory(history, calls, failed);
      && |results| == |calls|
      && results[n] == if failed[n] then Error else Expected(HistoryAt(history, calls, failed, n), calls[n].op)
    decreases |calls|
  {
    RunHistoryLength(history, calls, failed);
    if n > 0 {
      var next := if failed[0] then history else Logged(history, calls[0].op);
      HistoryAtLater(history, calls, failed, n);
      ResultAt(next, calls[1..], failed[1..], n - 1);
    }
  }

  lemma {:induction false} RunHistoryLength(history: seq<Event>, calls: seq<Call>, failed: seq<bool>)
    requires |calls| == |failed|
    ensures |RunHistory(history, calls, failed)| == |calls|
    decreases |calls|
  {
    if calls != [] {
      RunHistoryLength(if failed[0] then history else Logged(history, calls[0].op), calls[1..], failed[1..]);
    }
  }

  /** No call between the two that succeeds touches the key. */
  predicate Untouched(calls: seq<Call>, failed: seq<bool>, key: Key, i: nat, n: nat)
    requires i < n <= |calls| == |failed|
  {
    forall j :: i < j < n ==> failed[j] || !Touches(calls[j].op, key)
  }

  lemma {:induction false} LastStays(history: seq<Event>, calls: seq<Call>, failed: seq<bool>, key: Key, i: nat, n: nat)
    requires i < n <= |calls| == |failed| && Untouched(calls, failed, key, i, n)
    ensures Last(HistoryAt(history, calls, failed, n), key) == Last(HistoryAt(history, calls, failed, i + 1), key)
    decreases n
  {
    if n > i + 1 {
      LastStays(history, calls, failed, key, i, n - 1);
      var before := HistoryAt(history, calls, failed, n - 1);
      match calls[n - 1].op
      case Set(k, value, ttl, now, _) => LastAfter(before, Wrote(k, NewItem(value, ttl, now)), key);
      case Delete(k, _) => LastAfter(before, Removed(k), key);
      case _ =>
    }
  }

  /** In the reference: a read behind a write that nothing came between. */
  lemma HistoryRead(history: seq<Event>, calls: seq<Call>, failed: seq<bool>, i: nat, n: nat,
                    key: Key, value: Bytes, ttl: int, now: Time, sweepAt: Time, t: Time)
    requires i < n < |calls| == |failed| && Untouched(calls, failed, key, i, n)
    requires calls[i].op == Set(key, value, ttl, now, sweepAt) && !failed[i]
    requires calls[n].op == Get(key, t) && !failed[n]
    ensures |RunHistory(history, calls, failed)| == |calls|
    ensures RunHistory(history, calls, failed)[n] ==
              Found(if ttl <= 0 || t <= now + ttl then Some(value) else None)
  {
    ResultAt(history, calls, failed, n);
    LastStays(history, calls, failed, key, i, n);
    LastAfter(HistoryAt(history, calls, failed, i), Wrote(key, NewItem(value, ttl, now)), key);
  }

  lemma HistoryReadDeleted(history: seq<Event>, calls: seq<Call>, failed: seq<bool>, i: nat, n: nat,
                           key: Key, now: Time, t: Time)
    requires i < n < |calls| == |failed| && Untouched(calls, failed, key, i, n)
    requires calls[i].op == Delete(key, now) && !failed[i]
    requires calls[n].op == Get(key, t) && !failed[n]
    ensures |RunHistory(history, calls, failed)| == |calls| && RunHistory(history, calls, failed)[n] == Found(None)
  {
    ResultAt(history, calls, failed, n);
    LastStays(history, calls, failed, key, i, n);
    LastAfter(HistoryAt(history, calls, failed, i), Removed(key), key);
  }

  // ---------------------------------------------------------------- what a time-to-live means

  /**
   Over any ordered calls on a memory store in any state: a read behind a write of its key, with no successful write or
   delete of the key between them, finds the value if and only if it has no positive ttl or the ttl has not run out.
   */
  lemma MemoryTtl(m: Memory, clock: Time, calls: seq<Call>, i: nat, n: nat,
                  key: Key, value: Bytes, ttl: int, now: Time, sweepAt: Time, t: Time)
    requires Monotone(calls, clock) && i < n < |calls|
    requires calls[i].op == Set(key, value, ttl, now, sweepAt) && !calls[i].cancelled
    requires calls[n].op == Get(key, t) && !calls[n].cancelled
    requires forall j :: i < j < n ==> calls[j].cancelled || !Touches(calls[j].op, key)
    ensures |RunMemory(m, calls).1| == |calls|
    ensures RunMemory(m, calls).1[n] == Found(if ttl <= 0 || t <= now + ttl then Some(value) else None)
  {
    var history := HasHistory(m.items, clock);
    MemoryRefinesHistory(m, history, clock, calls);
    HistoryRead(history, calls, Cancelled(calls), i, n, key, value, ttl, now, sweepAt, t);
  }

  /** The same of a file store, where what counts is whether calls succeeded. */
  lemma FileTtl(f: File, clock: Time, calls: seq<Call>, i: nat, n: nat,
                key: Key, value: Bytes, ttl: int, now: Time, sweepAt: Time, t: Time)
    requires Monotone(calls, clock) && i < n < |calls| == |RunFile(f, calls).1|
    requires calls[i].op == Set(key, value, ttl, now, sweepAt) && RunFile(f, calls).1[i] != Error
    requires calls[n].op == Get(key, t) && RunFile(f, calls).1[n] != Error
    requires forall j :: i < j < n ==> RunFile(f, calls).1[j] == Error || !Touches(calls[j].op, key)
    ensures RunFile(f, calls).1[n] == Found(if ttl <= 0 || t <= now + ttl then Some(value) else None)
  {
    var history := HasHistory(f.items, clock);
    FileRefinesHistory(f, history, clock, calls);
    HistoryRead(history, calls, Failed(RunFile(f, calls).1), i, n, key, value, ttl, now, sweepAt, t);
  }

  /** And behind a delete there is nothing, in either store. */
  lemma MemoryDeleted(m: Memory, clock: Time, calls: seq<Call>, i: nat, n: nat, key: Key, now: Time, t: Time)
    requires Monotone(calls, clock) && i < n < |calls|
    requires calls[i].op == Delete(key, now) && !calls[i].cancelled && calls[n].op == Get(key, t) && !calls[n].cancelled
    requires forall j :: i < j < n ==> calls[j].cancelled || !Touches(calls[j].op, key)
    ensures |RunMemory(m, calls).1| == |calls| && RunMemory(m, calls).1[n] == Found(None)
  {
    var history := HasHistory(m.items, clock);
    MemoryRefinesHistory(m, history, clock, calls);
    HistoryReadDeleted(history, calls, Cancelled(calls), i, n, key, now, t);
  }

  lemma FileDeleted(f: File, clock: Time, calls: seq<Call>, i: nat, n: nat, key: Key, now: Time, t: Time)
    requires Monotone(calls, clock) && i < n < |calls| == |RunFile(f, calls).1|
    requires calls[i].op == Delete(key, now) && RunFile(f, calls).1[i] != Error
    requires calls[n].op == Get(key, t) && RunFile(f, calls).1[n] != Error
    requires forall j :: i < j < n ==> RunFile(f, calls).1[j] == Error || !Touches(calls[j].op, key)
    ensures RunFile(f, calls).1[n] == Found(None)
  {
    var history := HasHistory(f.items, clock);
    FileRefinesHistory(f, history, clock, calls);
    HistoryReadDeleted(history, calls, Failed(RunFile(f, calls).1), i, n, key, now, t);
  }

  // ---------------------------------------------------------------- what sweeps remove

  /** The time is not past the item's expiry, if it has one. */
  predicate Kept(item: Item, now: Time) { item.expires.None? || now <= item.expires.value }

  /** A sweep leaves exactly the items that have not expired, as they were. */
  ghost predicate SweptAt(before: Items, after: Items, now: Time) {
    && (forall k :: k in after <==> k in before && Kept(before[k], now))
    && (forall k :: k in after ==> after[k] == before[k])
  }

  lemma ForcedSweepSweeps(m: Memory, f: File, now: Time, saveFails: bool)
    ensures SweptAt(m.items, m.Step(Call(Sweep(now), false, saveFails)).0.items, now)
    ensures f.Step(Call(Sweep(now), false, saveFails)).1 != Error ==>
              SweptAt(f.items, f.Step(Call(Sweep(now), false, saveFails)).0.items, now)
  {
    assert Unexpired(f.items, now) == f.items ==> forall k :: k in f.items ==> k in Unexpired(f.items, now);
  }

  /** A write sweeps the memory store exactly when sweeps are on and none ran within the interval, and writes. */
  lemma WriteSweepsWhenDue(m: Memory, key: Key, value: Bytes, ttl: int, now: Time, sweepAt: Time)
    ensures
      var after := m.Step(Call(Set(key, value, ttl, now, sweepAt), false, false)).0;
      var written := m.items[key := Item(value, if ttl > 0 then Some(now + ttl) else None)];
      var due := m.every > 0 && (m.lastSwept.None? || now - m.lastSwept.value >= m.every);
      if due then SweptAt(written, after.items, now) && after.lastSwept == Some(now)
      else after.items == written && after.lastSwept == m.lastSwept
  {
  }

  /** A read that finds nothing leaves nothing under its key, an expired item included; a hit changes nothing. */
  lemma MissForgets(m: Memory, f: File, key: Key, now: Time, saveFails: bool)
    ensures
      var (after, r) := m.Step(Call(Get(key, now), false, saveFails));
      if r == Found(None) then after.items == m.items - {key} else after == m
    ensures
      var (after, r) := f.Step(Call(Get(key, now), false, saveFails));
      if r == Found(None) then after.items == f.items - {key} else after == f
  {
    assert key !in m.items ==> m.items - {key} == m.items;
    assert key !in f.items ==> f.items - {key} == f.items;
  }

  // ---------------------------------------------------------------- which calls fail

  lemma MemoryFailsIff(m: Memory, call: Call)
    ensures m.Step(call).1 == Error <==> call.cancelled
  {
  }

  /** The call changes what the file has to hold. */
  predicate NeedsSave(items: Items, op: Op) {
    match op
    case Get(key, now) => key in items && !Kept(items[key], now)
    case Set(_, _, _, _, _) => true
    case Delete(key, _) => key in items
    case Sweep(now) => exists k :: k in items && !Kept(items[k], now)
  }

  /** A call on the file store fails exactly when it is cancelled, or has to save and cannot. */
  lemma FileFailsIff(f: File, call: Call)
    ensures f.Step(call).1 == Error <==> call.cancelled || (call.saveFails && NeedsSave(f.items, call.op))
  {
    if call.op.Sweep? {
      var kept := Unexpired(f.items, call.op.now);
      assert (exists k :: k in f.items && !Kept(f.items[k], call.op.now)) <==> kept != f.items by {
        if k :| k in f.items && !Kept(f.items[k], call.op.now) {
          assert k !in kept;
        } else {
          assert forall k :: k in f.items ==> k in kept;
          assert kept == f.items;
        }
      }
    }
  }

  /** A file can be opened exactly when it is missing or a document of version 1. */
  lemma LoadsIff(disk: Disk)
    ensures Load(disk).Loaded? <==> disk.NoFile? || (disk.Document? && disk.version == 1)
    ensures disk == NoFile ==> Load(disk) == Loaded(map[])
    ensures disk.Document? && disk.version == 1 ==>
              Load(disk) == Loaded(if disk.items.Some? then disk.items.value else map[])
  {
  }
}
