/** The reference-counted locks that serialise events of one key. */
module KeyedLocks {
  import opened Common

  // Lock objects are created on first use and deleted with their last reference, so mutual exclusion per key has to
  // survive deletion and recreation.  One action is one critical section of the table's mutex, or one operation on a
  // lock object's own mutex.

  type Key = string
  type LockId = nat
  type ThreadId = nat

  datatype Pc =
    | Idle
    | Wanting(key: Key, lock: LockId)
    | Inside(key: Key, lock: LockId)
    | Leaving(key: Key, lock: LockId)
  {
    predicate Uses(l: LockId) { !Idle? && lock == l }
  }

  /** The table that the outer mutex guards: which object a key has now, and each object's reference count. */
  datatype Table = Table(locks: map<Key, LockId>, refs: map<LockId, int>, next: LockId) {
    function Resolve(key: Key): LockId { if key in locks then locks[key] else next }

    /** The first half of lock: find or create the key's object and count one more reference. */
    function Retain(key: Key): Table {
      var l := Resolve(key);
      var before := if l in refs then refs[l] else 0;
      Table(locks[key := l], refs[l := before + 1], if key in locks then next else next + 1)
    }

    /** The second half of unlock: count one reference less and delete the key at zero. */
    function Release(key: Key, l: LockId): Table
      requires l in refs
    {
      this.(refs := refs[l := refs[l] - 1], locks := if refs[l] == 1 then locks - {key} else locks)
    }
  }

  datatype State = State(table: Table, holder: map<LockId, ThreadId>, threads: map<ThreadId, Pc>) {
    function At(t: ThreadId): Pc { if t in threads then threads[t] else Idle }
    function Move(t: ThreadId, pc: Pc): State { this.(threads := threads[t := pc]) }
  }

  const INITIAL := State(Table(map[], map[], 0), map[], map[])

  datatype Action = Enter(t: ThreadId, key: Key) | Acquire(t: ThreadId) | Unlock(t: ThreadId) | Leave(t: ThreadId)

  predicate Enabled(s: State, a: Action) {
    match a
    case Enter(t, _) => s.At(t).Idle?
    case Acquire(t) => s.At(t).Wanting? && s.At(t).lock !in s.holder
    case Unlock(t) => s.At(t).Inside?
    case Leave(t) => s.At(t).Leaving? && s.At(t).lock in s.table.refs
  }

  function Apply(s: State, a: Action): State
    requires Enabled(s, a)
  {
    match a
    case Enter(t, key) => s.Move(t, Wanting(key, s.table.Resolve(key))).(table := s.table.Retain(key))
    case Acquire(t) => s.Move(t, Inside(s.At(t).key, s.At(t).lock)).(holder := s.holder[s.At(t).lock := t])
    case Unlock(t) => s.Move(t, Leaving(s.At(t).key, s.At(t).lock)).(holder := s.holder - {s.At(t).lock})
    case Leave(t) => s.Move(t, Idle).(table := s.table.Release(s.At(t).key, s.At(t).lock))
  }

  predicate IsRun(s: State, run: seq<Action>)
    decreases |run|
  {
    run == [] || (Enabled(s, run[0]) && IsRun(Apply(s, run[0]), run[1..]))
  }

  function After(s: State, run: seq<Action>): State
    requires IsRun(s, run)
    decreases |run|
  {
    if run == [] then s else After(Apply(s, run[0]), run[1..])
  }

  /** The threads that hold, wait for, or are about to give back their reference to an object. */
  function Users(s: State, l: LockId): set<ThreadId> {
    set t | t in s.threads && s.threads[t].Uses(l)
  }

  ghost predicate ThreadOk(s: State, t: ThreadId) {
    var pc := s.At(t);
    && (!pc.Idle? ==> pc.key in s.table.locks && s.table.locks[pc.key] == pc.lock && pc.lock in s.table.refs)
    && (pc.Inside? <==> !pc.Idle? && pc.lock in s.holder && s.holder[pc.lock] == t)
  }

  ghost predicate ThreadsOk(s: State) { forall t :: t in s.threads ==> ThreadOk(s, t) }

  /** Keys in the table have objects of their own, each with a positive count. */
  ghost predicate LocksOk(s: State) {
    && (forall k :: k in s.table.locks ==> s.table.locks[k] in s.table.refs && s.table.refs[s.table.locks[k]] > 0)
    && (forall k, k' :: k in s.table.locks && k' in s.table.locks && s.table.locks[k] == s.table.locks[k'] ==> k == k')
  }

  ghost predicate CountsOk(s: State) {
    forall l :: l in s.table.refs ==> l < s.table.next && s.table.refs[l] == |Users(s, l)|
  }

  ghost predicate HoldersOk(s: State) {
    forall l :: l in s.holder ==> s.holder[l] in s.threads && s.threads[s.holder[l]].Uses(l)
  }

  ghost predicate Inv(s: State) {
    ThreadsOk(s) && LocksOk(s) && CountsOk(s) && HoldersOk(s)
  }

  // ---------------------------------------------------------------- the invariant is inductive

  /** A thread that moves on without changing the object it uses leaves every count alone. */
  lemma UsersUnchanged(s: State, s': State, t: ThreadId, l: LockId)
    requires t in s'.threads && s'.threads == s.threads[t := s'.threads[t]]
    requires s.At(t).Uses(l) == s'.At(t).Uses(l)
    ensures Users(s', l) == Users(s, l)
  {
  }

  lemma UnknownObjectIsUnused(s: State, l: LockId)
    requires Inv(s) && l !in s.table.refs
    ensures Users(s, l) == {}
  {
    assert forall t :: t in s.threads ==> ThreadOk(s, t);
  }

  lemma EnterKeepsCounts(s: State, t: ThreadId, key: Key)
    requires Inv(s) && Enabled(s, Enter(t, key))
    ensures CountsOk(Apply(s, Enter(t, key)))
  {
    var s' := Apply(s, Enter(t, key));
    var own := s.table.Resolve(key);
    if own !in s.table.refs {
      UnknownObjectIsUnused(s, own);
    }
    assert Users(s', own) == Users(s, own) + {t} && t !in Users(s, own);
    forall l | l in s'.table.refs && l != own ensures s'.table.refs[l] == |Users(s', l)| {
      UsersUnchanged(s, s', t, l);
    }
  }

  lemma EnterKeepsInv(s: State, t: ThreadId, key: Key)
    requires Inv(s) && Enabled(s, Enter(t, key))
    ensures Inv(Apply(s, Enter(t, key)))
  {
    var s' := Apply(s, Enter(t, key));
    EnterKeepsCounts(s, t, key);
    assert t in s.threads ==> ThreadOk(s, t);
    forall t' | t' in s'.threads ensures ThreadOk(s', t') {
      assert t' in s.threads ==> ThreadOk(s, t');
    }
  }

  lemma AcquireKeepsThreads(s: State, t: ThreadId)
    requires Inv(s) && Enabled(s, Acquire(t))
    ensures ThreadsOk(Apply(s, Acquire(t)))
  {
    var s' := Apply(s, Acquire(t));
    assert ThreadOk(s, t);
    forall t' | t' in s'.threads ensures ThreadOk(s', t') {
      assert ThreadOk(s, t');
    }
  }

  lemma AcquireKeepsInv(s: State, t: ThreadId)
    requires Inv(s) && Enabled(s, Acquire(t))
    ensures Inv(Apply(s, Acquire(t)))
  {
    var s' := Apply(s, Acquire(t));
    AcquireKeepsThreads(s, t);
    forall l | l in s'.table.refs ensures s'.table.refs[l] == |Users(s', l)| { UsersUnchanged(s, s', t, l); }
  }

  lemma UnlockKeepsThreads(s: State, t: ThreadId)
    requires Inv(s) && Enabled(s, Unlock(t))
    ensures ThreadsOk(Apply(s, Unlock(t)))
  {
    var s' := Apply(s, Unlock(t));
    assert ThreadOk(s, t);
    forall t' | t' in s'.threads ensures ThreadOk(s', t') {
      assert ThreadOk(s, t');
    }
  }

  lemma UnlockKeepsInv(s: State, t: ThreadId)
    requires Inv(s) && Enabled(s, Unlock(t))
    ensures Inv(Apply(s, Unlock(t)))
  {
    var s' := Apply(s, Unlock(t));
    UnlockKeepsThreads(s, t);
    forall l | l in s'.table.refs ensures s'.table.refs[l] == |Users(s', l)| { UsersUnchanged(s, s', t, l); }
  }

  lemma LeaveKeepsCounts(s: State, t: ThreadId)
    requires Inv(s) && Enabled(s, Leave(t))
    ensures CountsOk(Apply(s, Leave(t)))
  {
    var s' := Apply(s, Leave(t));
    var own := s.At(t).lock;
    assert t in Users(s, own);
    assert Users(s', own) == Users(s, own) - {t};
    forall l | l in s'.table.refs && l != own ensures s'.table.refs[l] == |Users(s', l)| {
      UsersUnchanged(s, s', t, l);
    }
  }

  lemma LeaveKeepsThreads(s: State, t: ThreadId)
    requires Inv(s) && Enabled(s, Leave(t))
    ensures ThreadsOk(Apply(s, Leave(t)))
  {
    var s' := Apply(s, Leave(t));
    assert ThreadOk(s, t);
    forall t' | t' in s'.threads ensures ThreadOk(s', t') {
      assert ThreadOk(s, t');
      if t' != t && s.At(t').Uses(s.At(t).lock) {
        SubsetIsSmaller({t, t'}, Users(s, s.At(t).lock));
      }
    }
  }

  lemma LeaveKeepsInv(s: State, t: ThreadId)
    requires Inv(s) && Enabled(s, Leave(t))
    ensures Inv(Apply(s, Leave(t)))
  {
    var s' := Apply(s, Leave(t));
    LeaveKeepsThreads(s, t);
    LeaveKeepsCounts(s, t);
  }

  lemma StepKeepsInv(s: State, a: Action)
    requires Inv(s) && Enabled(s, a)
    ensures Inv(Apply(s, a))
  {
    match a
    case Enter(t, key) => EnterKeepsInv(s, t, key);
    case Acquire(t) => AcquireKeepsInv(s, t);
    case Unlock(t) => UnlockKeepsInv(s, t);
    case Leave(t) => LeaveKeepsInv(s, t);
  }

  lemma {:induction false} RunKeepsInv(s: State, run: seq<Action>)
    requires Inv(s) && IsRun(s, run)
    ensures Inv(After(s, run))
    decreases |run|
  {
    if run != [] {
      StepKeepsInv(s, run[0]);
      RunKeepsInv(Apply(s, run[0]), run[1..]);
    }
  }

  lemma InitialInv()
    ensures Inv(INITIAL)
  {
    assert forall l :: Users(INITIAL, l) == {};
  }

  // ---------------------------------------------------------------- what every run guarantees

  lemma OneInsidePerKey(s: State, t: ThreadId, t': ThreadId)
    requires Inv(s) && s.At(t).Inside? && s.At(t').Inside? && s.At(t).key == s.At(t').key
    ensures t == t'
  {
    assert ThreadOk(s, t) && ThreadOk(s, t');
  }

  /** At most one thread is inside the critical section of a key. */
  lemma MutualExclusionPerKey(run: seq<Action>, t: ThreadId, t': ThreadId)
    requires IsRun(INITIAL, run)
    requires After(INITIAL, run).At(t).Inside? && After(INITIAL, run).At(t').Inside?
    requires After(INITIAL, run).At(t).key == After(INITIAL, run).At(t').key
    ensures t == t'
  {
    InitialInv();
    RunKeepsInv(INITIAL, run);
    OneInsidePerKey(After(INITIAL, run), t, t');
  }

  /** The threads that wait for a key, are inside it, or leave it. */
  function BusyWith(s: State, key: Key): set<ThreadId> {
    set t | t in s.threads && !s.threads[t].Idle? && s.threads[t].key == key
  }

  /**
   Every thread busy with a key uses the one object that the table has for it, the object's count is the number of
   such threads, and the table has no key that nobody is busy with.
   */
  lemma TableIsExact(run: seq<Action>)
    requires IsRun(INITIAL, run)
    ensures
      var s := After(INITIAL, run);
      && (forall t :: t in s.threads && !s.At(t).Idle? ==>
            var pc := s.At(t);
            pc.key in s.table.locks && s.table.locks[pc.key] == pc.lock)
      && (forall k :: k in s.table.locks ==>
            var l := s.table.locks[k];
            && l in s.table.refs
            && s.table.refs[l] == |BusyWith(s, k)| > 0)
  {
    InitialInv();
    RunKeepsInv(INITIAL, run);
    var s := After(INITIAL, run);
    forall t | t in s.threads && !s.At(t).Idle?
      ensures s.At(t).key in s.table.locks && s.table.locks[s.At(t).key] == s.At(t).lock
    {
      assert ThreadOk(s, t);
    }
    forall k | k in s.table.locks
      ensures Users(s, s.table.locks[k]) == BusyWith(s, k)
    {
      assert forall t :: t in s.threads ==> ThreadOk(s, t);
    }
  }

  /** When every thread has left, no lock object is kept. */
  lemma AllLeftMeansEmpty(run: seq<Action>)
    requires IsRun(INITIAL, run)
    requires forall t :: t in After(INITIAL, run).threads ==> After(INITIAL, run).At(t).Idle?
    ensures After(INITIAL, run).table.locks == map[] && After(INITIAL, run).holder == map[]
  {
    InitialInv();
    RunKeepsInv(INITIAL, run);
    var s := After(INITIAL, run);
    assert forall l :: Users(s, l) == {};
  }

  /** Unlocking always finds the lock held by the caller, and a reference can always be given back. */
  lemma UnlockAndLeaveAreSafe(run: seq<Action>, t: ThreadId)
    requires IsRun(INITIAL, run)
    ensures
      var s := After(INITIAL, run);
      && (s.At(t).Inside? ==> s.At(t).lock in s.holder && s.holder[s.At(t).lock] == t)
      && (s.At(t).Leaving? ==> Enabled(s, Leave(t)))
  {
    InitialInv();
    RunKeepsInv(INITIAL, run);
    var s := After(INITIAL, run);
    if t in s.threads {
      assert ThreadOk(s, t);
    }
  }

  lemma FreeKeyCanBeEntered(s: State, t: ThreadId)
    requires Inv(s) && s.At(t).Wanting?
    requires forall t' :: t' in s.threads ==> !(s.At(t').Inside? && s.At(t').key == s.At(t).key)
    ensures Enabled(s, Acquire(t))
  {
    assert ThreadOk(s, t);
    assert s.At(t).lock in s.holder ==> ThreadOk(s, s.holder[s.At(t).lock]);
    assert LocksOk(s);
  }

  /** A thread waiting for a key can enter as soon as no thread is inside that key: no lock object is left locked. */
  lemma WaiterCanEnter(run: seq<Action>, t: ThreadId)
    requires IsRun(INITIAL, run) && After(INITIAL, run).At(t).Wanting?
    requires forall t' :: t' in After(INITIAL, run).threads ==>
               !(After(INITIAL, run).At(t').Inside? && After(INITIAL, run).At(t').key == After(INITIAL, run).At(t).key)
    ensures Enabled(After(INITIAL, run), Acquire(t))
  {
    InitialInv();
    RunKeepsInv(INITIAL, run);
    FreeKeyCanBeEntered(After(INITIAL, run), t);
  }

  // ---------------------------------------------------------------- the table as an object

  class KeyedLock {
    ghost const id: LockId
    var refs: int

    constructor (ghost id: LockId)
      ensures this.id == id && refs == 0
    {
      this.id := id;
      refs := 0;
    }
  }

  /** The two critical sections of the outer mutex, updating the map and the counts in place. */
  class LockTable {
    var locks: map<Key, KeyedLock>
    ghost var made: map<LockId, KeyedLock>
    ghost var view: Table

    constructor ()
      ensures Valid() && view == INITIAL.table
    {
      locks := map[];
      made := map[];
      view := Table(map[], map[], 0);
    }

    ghost predicate Valid()
      reads this, made.Values
    {
      && locks.Keys == view.locks.Keys
      && (forall k :: k in locks ==>
            locks[k].id == view.locks[k] && view.locks[k] in made && made[view.locks[k]] == locks[k])
      && made.Keys == view.refs.Keys
      && (forall l :: l in made ==> made[l].id == l < view.next && made[l].refs == view.refs[l])
    }

    method Retain(key: Key) returns (item: KeyedLock)
      requires Valid()
      modifies this, made.Values
      ensures Valid() && view == old(view).Retain(key)
      ensures item.id == old(view).Resolve(key) && item.id in made && made[item.id] == item
    {
      if key in locks {
        item := locks[key];
      } else {
        item := new KeyedLock(view.next);
        locks := locks[key := item];
        made := made[view.next := item];
      }
      item.refs := item.refs + 1;
      view := view.Retain(key);
    }

    method Release(key: Key, item: KeyedLock)
      requires Valid() && item.id in made && made[item.id] == item
      modifies this, made.Values
      ensures Valid() && view == old(view).Release(key, item.id)
    {
      view := view.Release(key, item.id);
      item.refs := item.refs - 1;
      if item.refs == 0 {
        locks := locks - {key};
      }
    }
  }
}
