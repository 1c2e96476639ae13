/** What the stores promise over whole histories of calls under a clock that does not go back. */
module StoreLaws {
  import opened Common
  import opened Stores

  // ---------------------------------------------------------------- the reference: a history of writes

  datatype Event = Wrote(key: Key, item: Item) | Removed(key: Key)

  /** The last thing that happened to a key. */
  function Last(history: seq<Event>, key: Key): Option<Item> {
    if history == [] then None
    else
      var e := history[|history| - 1];
      if e.key != key then Last(history[..|history| - 1], key)
      else if e.Wrote? then Some(e.item) else None
  }

  /** The last value written and not deleted since, unless it has expired. */
  function Recall(history: seq<Event>, key: Key, now: Time): Option<Bytes> {
    var item := Last(history, key);
    if item.Some? && !item.value.Expired(now) then Some(item.value.value) else None
  }

  /** Only Set and Delete leave a trace; reads and sweeps do not. */
  function Logged(history: seq<Event>, op: Op): seq<Event> {
    match op
    case Set(key, value, ttl, now, _) => history + [Wrote(key, NewItem(value, ttl, now))]
    case Delete(key, _) => history + [Removed(key)]
    case _ => history
  }

  /** What a successful call returns according to the history. */
  function Expected(history: seq<Event>, op: Op): Result {
    if op.Get? then Found(Recall(history, op.key, op.now)) else Done
  }

  function Visible(items: Items, key: Key, now: Time): Option<Bytes> {
    if key in items && !items[key].Expired(now) then Some(items[key].value) else None
  }

  /** From the given time on, every key shows what the history recalls. */
  ghost predicate Agrees(items: Items, history: seq<Event>, clock: Time) {
    forall key, now :: now >= clock ==> Visible(items, key, now) == Recall(history, key, now)
  }

  /** Each call reads the clock no earlier than the call before it did last. */
  predicate Monotone(calls: seq<Call>, clock: Time)
    decreases |calls|
  {
    calls == [] || (clock <= calls[0].op.now && calls[0].op.ClockOk() && Monotone(calls[1..], calls[0].op.End()))
  }

  lemma LastAfter(history: seq<Event>, e: Event, key: Key)
    ensures Last(history + [e], key) ==
              if e.key != key then Last(history, key) else if e.Wrote? then Some(e.item) else None
  {
    assert (history + [e])[..|history|] == history;
  }

  lemma DroppingExpiredIsInvisible(items: Items, history: seq<Event>, clock: Time, kept: Items, at: Time)
    requires Agrees(items, history, clock) && clock <= at
    requires forall k :: k in kept ==> k in items && kept[k] == items[k]
    requires forall k :: k in items && k !in kept ==> items[k].Expired(at)
    ensures Agrees(kept, history, at)
  {
    forall key, now | now >= at ensures Visible(kept, key, now) == Recall(history, key, now) {
      assert Visible(items, key, now) == Recall(history, key, now);
    }
  }

  lemma WritingAgrees(items: Items, history: seq<Event>, clock: Time, key: Key, item: Item)
    requires Agrees(items, history, clock)
    ensures Agrees(items[key := item], history + [Wrote(key, item)], clock)
  {
    forall k, now | now >= clock
      ensures Visible(items[key := item], k, now) == Recall(history + [Wrote(key, item)], k, now)
    {
      LastAfter(history, Wrote(key, item), k);
      assert Visible(items, k, now) == Recall(history, k, now);
    }
  }

  lemma RemovingAgrees(items: Items, history: seq<Event>, clock: Time, key: Key, at: Time)
    requires Agrees(items, history, clock) && clock <= at
    ensures Agrees(items - {key}, history + [Removed(key)], at)
  {
    forall k, now | now >= at ensures Visible(items - {key}, k, now) == Recall(history + [Removed(key)], k, now) {
      LastAfter(history, Removed(key), k);
      assert Visible(items, k, now) == Recall(history, k, now);
    }
  }

  // ---------------------------------------------------------------- one step of each store

  lemma MemoryStepRefines(m: Memory, history: seq<Event>, clock: Time, call: Call)
    requires Agrees(m.items, history, clock) && clock <= call.op.now && call.op.ClockOk()
    ensures
      var (m', r) := m.Step(call);
      if call.cancelled then m' == m && r == Error
      else Agrees(m'.items, Logged(history, call.op), call.op.End()) && r == Expected(history, call.op)
  {
    if call.cancelled {
      return;
    }
    var (m', r) := m.Step(call);
    match call.op
    case Get(key, now) =>
      assert Visible(m.items, key, now) == Recall(history, key, now);
      DroppingExpiredIsInvisible(m.items, history, clock, m'.items, now);
    case Set(key, value, ttl, now, sweepAt) =>
      var item := NewItem(value, ttl, now);
      WritingAgrees(m.items, history, clock, key, item);
      var written := m.items[key := item];
      DroppingExpiredIsInvisible(written, Logged(history, call.op), clock, m'.items, now);
      DroppingExpiredIsInvisible(m'.items, Logged(history, call.op), now, m'.items, sweepAt);
    case Delete(key, now) => RemovingAgrees(m.items, history, clock, key, now);
    case Sweep(now) => DroppingExpiredIsInvisible(m.items, history, clock, m'.items, now);
  }

  lemma FileStepRefines(f: File, history: seq<Event>, clock: Time, call: Call)
    requires Agrees(f.items, history, clock) && clock <= call.op.now && call.op.ClockOk()
    ensures
      var (f', r) := f.Step(call);
      if r == Error then f' == f
      else Agrees(f'.items, Logged(history, call.op), call.op.End()) && r == Expected(history, call.op)
  {
    var (f', r) := f.Step(call);
    if r == Error {
      return;
    }
    match call.op
    case Get(key, now) =>
      assert Visible(f.items, key, now) == Recall(history, key, now);
      DroppingExpiredIsInvisible(f.items, history, clock, f'.items, now);
    case Set(key, value, ttl, now, sweepAt) =>
      var item := NewItem(value, ttl, now);
      WritingAgrees(f.items, history, clock, key, item);
      DroppingExpiredIsInvisible(f.items[key := item], Logged(history, call.op), clock, f'.items, sweepAt);
    case Delete(key, now) =>
      RemovingAgrees(f.items, history, clock, key, now);
      assert f'.items == f.items - {key};
    case Sweep(now) => DroppingExpiredIsInvisible(f.items, history, clock, f'.items, now);
  }

  // ---------------------------------------------------------------- whole runs

  function RunMemory(m: Memory, calls: seq<Call>): (Memory, seq<Result>)
    decreases |calls|
  {
    if calls == [] then (m, [])
    else
      var (m', r) := m.Step(calls[0]);
      var (end, rs) := RunMemory(m', calls[1..]);
      (end, [r] + rs)
  }

  function RunFile(f: File, calls: seq<Call>): (File, seq<Result>)
    decreases |calls|
  {
    if calls == [] then (f, [])
    else
      var (f', r) := f.Step(calls[0]);
      var (end, rs) := RunFile(f', calls[1..]);
      (end, [r] + rs)
  }

  /** The results that a store with no state but its history gives, when the calls marked as failed do nothing. */
  function RunHistory(history: seq<Event>, calls: seq<Call>, failed: seq<bool>): seq<Result>
    requires |failed| == |calls|
    decreases |calls|
  {
    if calls == [] then []
    else if failed[0] then [Error] + RunHistory(history, calls[1..], failed[1..])
    else [Expected(history, calls[0].op)] + RunHistory(Logged(history, calls[0].op), calls[1..], failed[1..])
  }

  function Failed(results: seq<Result>): (failed: seq<bool>)
    ensures |failed| == |results|
  {
    seq(|results|, i requires 0 <= i < |results| => results[i] == Error)
  }

  function Cancelled(calls: seq<Call>): (cancelled: seq<bool>)
    ensures |cancelled| == |calls|
  {
    seq(|calls|, i requires 0 <= i < |calls| => calls[i].cancelled)
  }

  /** The memory store gives what its history gives, failing exactly the cancelled calls; sweeps are invisible. */
  lemma {:induction false} MemoryRefinesHistory(m: Memory, history: seq<Event>, clock: Time, calls: seq<Call>)
    requires Agrees(m.items, history, clock) && Monotone(calls, clock)
    ensures RunMemory(m, calls).1 == RunHistory(history, calls, Cancelled(calls))
    decreases |calls|
  {
    if calls != [] {
      var call := calls[0];
      MemoryStepRefines(m, history, clock, call);
      var m' := m.Step(call).0;
      var next := if call.cancelled then history else Logged(history, call.op);
      LaterAgrees(m'.items, next, if call.cancelled then clock else call.op.End(), call.op.End());
      MemoryRefinesHistory(m', next, call.op.End(), calls[1..]);
      assert Cancelled(calls)[1..] == Cancelled(calls[1..]);
    }
  }

  lemma LaterAgrees(items: Items, history: seq<Event>, clock: Time, later: Time)
    requires Agrees(items, history, clock) && clock <= later
    ensures Agrees(items, history, later)
  {
    forall key, now | now >= later ensures Visible(items, key, now) == Recall(history, key, now) {
      assert now >= clock;
    }
  }

  lemma {:induction false} RunFileLength(f: File, calls: seq<Call>)
    ensures |RunFile(f, calls).1| == |calls|
    decreases |calls|
  {
    if calls != [] {
      RunFileLength(f.Step(calls[0]).0, calls[1..]);
    }
  }

  /** The file store gives what the history of its successful calls gives, whichever calls fail. */
  lemma {:induction false} FileRefinesHistory(f: File, history: seq<Event>, clock: Time, calls: seq<Call>)
    requires Agrees(f.items, history, clock) && Monotone(calls, clock)
    ensures |RunFile(f, calls).1| == |calls|
    ensures RunFile(f, calls).1 == RunHistory(history, calls, Failed(RunFile(f, calls).1))
    decreases |calls|
  {
    RunFileLength(f, calls);
    if calls != [] {
      var call := calls[0];
      FileStepRefines(f, history, clock, call);
      var (f', r) := f.Step(call);
      var next := if r == Error then history else Logged(history, call.op);
      LaterAgrees(f'.items, next, if r == Error then clock else call.op.End(), call.op.End());
      FileRefinesHistory(f', next, call.op.End(), calls[1..]);
      var results := RunFile(f, calls).1;
      assert results[1..] == RunFile(f', calls[1..]).1;
      assert Failed(results)[1..] == Failed(results[1..]);
    }
  }

  /** The calls with their failures turned into cancellations, which is all a failed call amounts to. */
  function AsCancelled(calls: seq<Call>, results: seq<Result>): (cs: seq<Call>)
    requires |results| == |calls|
    ensures |cs| == |calls|
  {
    seq(|calls|, i requires 0 <= i < |calls| => Call(calls[i].op, results[i] == Error, false))
  }

  lemma {:induction false} HistoryIgnoresContext(history: seq<Event>, a: seq<Call>, b: seq<Call>, failed: seq<bool>)
    requires |a| == |b| == |failed| && forall i :: 0 <= i < |a| ==> a[i].op == b[i].op
    ensures RunHistory(history, a, failed) == RunHistory(history, b, failed)
    decreases |a|
  {
    if a != [] {
      HistoryIgnoresContext(history, a[1..], b[1..], failed[1..]);
      HistoryIgnoresContext(Logged(history, a[0].op), a[1..], b[1..], failed[1..]);
    }
  }

  lemma {:induction false} MonotoneByOps(a: seq<Call>, b: seq<Call>, clock: Time)
    requires |a| == |b| && (forall i :: 0 <= i < |a| ==> a[i].op == b[i].op) && Monotone(a, clock)
    ensures Monotone(b, clock)
    decreases |a|
  {
    if a != [] {
      MonotoneByOps(a[1..], b[1..], a[0].op.End());
    }
  }

  /** Started empty, both stores answer alike on the calls that the file store completes. */
  lemma StoresAgree(every: int, clock: Time, calls: seq<Call>)
    requires Monotone(calls, clock)
    ensures
      var file := RunFile(File(map[], NoFile), calls).1;
      && |file| == |calls|
      && RunMemory(Memory(map[], None, every), AsCancelled(calls, file)).1 == file
  {
    assert Agrees(map[], [], clock);
    FileRefinesHistory(File(map[], NoFile), [], clock, calls);
    var file := RunFile(File(map[], NoFile), calls).1;
    var same := AsCancelled(calls, file);
    MonotoneByOps(calls, same, clock);
    MemoryRefinesHistory(Memory(map[], None, every), [], clock, same);
    assert Cancelled(same) == Failed(file);
    HistoryIgnoresContext([], calls, same, Failed(file));
  }

  // ---------------------------------------------------------------- durability

  /** Whatever happens to a call, memory and disk stay in step, and a call that fails changes neither. */
  lemma StepIsDurable(f: File, call: Call)
    requires f.Durable()
    ensures
      var (f', r) := f.Step(call);
      f'.Durable() && (r == Error ==> f' == f)
  {
  }

  /** After any calls, reopening the file yields the items in memory. */
  lemma {:induction false} RunIsDurable(f: File, calls: seq<Call>)
    requires f.Durable()
    ensures RunFile(f, calls).0.Durable()
    decreases |calls|
  {
    if calls != [] {
      StepIsDurable(f, calls[0]);
      RunIsDurable(f.Step(calls[0]).0, calls[1..]);
    }
  }

  function Reopen(f: File): File
    requires f.Durable()
  {
    File(Load(f.disk).items, f.disk)
  }

  lemma {:induction false} RunSplits(f: File, a: seq<Call>, b: seq<Call>)
    ensures RunFile(f, a + b).0 == RunFile(RunFile(f, a).0, b).0
    ensures RunFile(f, a + b).1 == RunFile(f, a).1 + RunFile(RunFile(f, a).0, b).1
    decreases |a|
  {
    if a == [] {
      assert a + b == b;
    } else {
      assert (a + b)[1..] == a[1..] + b;
      RunSplits(f.Step(a[0]).0, a[1..], b);
    }
  }

  /** A restart between any two calls is invisible: the run goes on as if the store had never been closed. */
  lemma RestartIsInvisible(f: File, a: seq<Call>, b: seq<Call>)
    requires f.Durable()
    ensures RunFile(f, a).0.Durable()
    ensures RunFile(f, a + b).1 == RunFile(f, a).1 + RunFile(Reopen(RunFile(f, a).0), b).1
  {
    RunIsDurable(f, a);
    RunSplits(f, a, b);
  }

  // ---------------------------------------------------------------- the memory store's read without its lock

  /** The first half of a read that found an expired item: it has given up the lock and still has to delete the key. */
  predicate FindsExpired(m: Memory, key: Key, now: Time) {
    key in m.items && m.items[key].Expired(now)
  }

  /** The second half, which deletes whatever the key has by then. */
  function Forget(m: Memory, key: Key): Memory { m.(items := m.items - {key}) }

  /** The writes and removals of the calls that were not cancelled. */
  function LogAll(history: seq<Event>, calls: seq<Call>): seq<Event>
    decreases |calls|
  {
    if calls == [] then history
    else LogAll(if calls[0].cancelled then history else Logged(history, calls[0].op), calls[1..])
  }

  function EndOf(calls: seq<Call>, clock: Time): Time
    decreases |calls|
  {
    if calls == [] then clock else EndOf(calls[1..], calls[0].op.End())
  }

  lemma {:induction false} MemoryAgreesAfter(m: Memory, history: seq<Event>, clock: Time, calls: seq<Call>)
    requires Agrees(m.items, history, clock) && Monotone(calls, clock)
    ensures Agrees(RunMemory(m, calls).0.items, LogAll(history, calls), EndOf(calls, clock))
    ensures clock <= EndOf(calls, clock)
    decreases |calls|
  {
    if calls != [] {
      var call := calls[0];
      MemoryStepRefines(m, history, clock, call);
      var m' := m.Step(call).0;
      var next := if call.cancelled then history else Logged(history, call.op);
      LaterAgrees(m'.items, next, if call.cancelled then clock else call.op.End(), call.op.End());
      MemoryAgreesAfter(m', next, call.op.End(), calls[1..]);
    }
  }

  /** Whether the last thing that the calls did to the key was to write it. */
  lemma {:induction false} LastOfLog(history: seq<Event>, own: seq<Event>, calls: seq<Call>, key: Key)
    ensures Last(LogAll(history + own, calls), key) ==
              if exists e :: e in LogAll(own, calls) && e.key == key then Last(LogAll(own, calls), key)
              else Last(history, key)
    decreases |calls|
  {
    if calls == [] {
      LastOfTwo(history, own, key);
    } else {
      var next := if calls[0].cancelled then own else Logged(own, calls[0].op);
      assert (if calls[0].cancelled then history + own else Logged(history + own, calls[0].op)) == history + next;
      LastOfLog(history, next, calls[1..], key);
    }
  }

  lemma {:induction false} LastOfTwo(a: seq<Event>, b: seq<Event>, key: Key)
    ensures Last(a + b, key) == if exists e :: e in b && e.key == key then Last(b, key) else Last(a, key)
    decreases |b|
  {
    if b == [] {
      assert a + b == a;
    } else {
      var front, e := b[..|b| - 1], b[|b| - 1];
      assert a + b == (a + front) + [e] && b == front + [e];
      LastAfter(a + front, e, key);
      LastAfter(front, e, key);
      LastOfTwo(a, front, key);
    }
  }

  /**
   A read in two halves with other calls in between.  The read itself answers rightly; but deleting late loses a write
   exactly when the item it found had expired and the calls in between, by themselves, leave a value for the key.
   */
  lemma {:induction false} LateDeleteLosesIff(m: Memory, history: seq<Event>, key: Key, now: Time, between: seq<Call>)
    requires Agrees(m.items, history, now) && Monotone(between, now) && FindsExpired(m, key, now)
    ensures Recall(history, key, now) == None && Forget(m, key) == m.Step(Call(Op.Get(key, now), false, false)).0
    ensures
      var end := EndOf(between, now);
      var after := Forget(RunMemory(m, between).0, key);
      Agrees(after.items, LogAll(history, between), end) <==> Recall(LogAll([], between), key, end) == None
  {
    assert Visible(m.items, key, now) == Recall(history, key, now);
    var end, all, own := EndOf(between, now), LogAll(history, between), LogAll([], between);
    var last := RunMemory(m, between).0;
    MemoryAgreesAfter(m, history, now, between);
    LastOfLog(history, [], between, key);
    assert history + [] == history;
    assert Visible(m.items, key, end) == Recall(history, key, end) == None;
    assert Visible(last.items, key, end) == Recall(all, key, end);
    NothingLogged(own, key);
    var after := Forget(last, key);
    if Recall(own, key, end) == None {
      forall k, t | t >= end ensures Visible(after.items, k, t) == Recall(all, k, t) {
        assert Visible(last.items, k, t) == Recall(all, k, t);
        assert Visible(m.items, key, t) == Recall(history, key, t);
      }
    } else {
      assert Visible(after.items, key, end) != Recall(all, key, end);
    }
  }

  lemma {:induction false} NothingLogged(log: seq<Event>, key: Key)
    ensures (forall e :: e in log ==> e.key != key) ==> Last(log, key) == None
    decreases |log|
  {
    if log != [] {
      assert log[|log| - 1] in log;
      NothingLogged(log[..|log| - 1], key);
    }
  }

  /** A key that expired at time 0, found so at time 1, and written for good just before the late delete. */
  lemma LateDeleteLosesWrite(key: Key, stale: Bytes, value: Bytes, every: int)
    ensures
      var m := Memory(map[key := Item(stale, Some(0))], None, every);
      var between := [Call(Op.Set(key, value, 0, 1, 1), false, false)];
      && FindsExpired(m, key, 1) && Monotone(between, 1)
      && Recall(LogAll([], between), key, 1) == Some(value)
      && Visible(RunMemory(m, between).0.items, key, 1) == Some(value)
      && Visible(Forget(RunMemory(m, between).0, key).items, key, 1) == None
  {
    var call := Call(Op.Set(key, value, 0, 1, 1), false, false);
    var m := Memory(map[key := Item(stale, Some(0))], None, every);
    assert [call][1..] == [] && Monotone([], 1);
    assert RunMemory(m, [call]).0 == m.Step(call).0;
    var log := Logged([], call.op);
    assert LogAll([], [call]) == log == [Wrote(key, NewItem(value, 0, 1))];
  }
}
