/**
 The two session stores with time-to-live: an in-memory one that sweeps now and then, and a file-backed one that
 rewrites its whole document on every change and rolls back when it cannot.  Both are functions of the state in
 `Stores` and objects updated in place below; `StoreLaws` relates them to the history of calls, `StoreExpiry` to times.
 */
module Stores {
  import opened Common

  type Key = string
  type Bytes = seq<nat>
  type Time = int

  datatype Item = Item(value: Bytes, expires: Option<Time>) {
    predicate Expired(now: Time) { expires.Some? && now > expires.value }
  }

  type Items = map<Key, Item>

  /** A positive ttl sets an expiry; any other keeps the value for good. */
  function NewItem(value: Bytes, ttl: int, now: Time): Item {
    Item(value, if ttl > 0 then Some(now + ttl) else None)
  }

  function Unexpired(items: Items, now: Time): Items {
    map k | k in items && !items[k].Expired(now) :: items[k]
  }

  /** The clock is read once per call, but twice by the file store's Set: for the expiry and for the sweep. */
  datatype Op =
    | Get(key: Key, now: Time)
    | Set(key: Key, value: Bytes, ttl: int, now: Time, sweepAt: Time)
    | Delete(key: Key, now: Time)
    | Sweep(now: Time)
  {
    function End(): Time { if Set? then sweepAt else now }
    predicate ClockOk() { now <= End() }
  }

  /** A call with what its context and the file system do to it. */
  datatype Call = Call(op: Op, cancelled: bool, saveFails: bool)

  datatype Result = Found(value: Option<Bytes>) | Done | Error

  // ---------------------------------------------------------------- the memory store

  datatype Memory = Memory(items: Items, lastSwept: Option<Time>, every: int) {
    function SweepAt(now: Time, force: bool): Memory {
      if !force && (every <= 0 || (lastSwept.Some? && now - lastSwept.value < every)) then this
      else this.(items := Unexpired(items, now), lastSwept := Some(now))
    }

    function Step(call: Call): (Memory, Result) {
      if call.cancelled then (this, Error)
      else match call.op
        case Get(key, now) =>
          if key !in items then (this, Found(None))
          else if items[key].Expired(now) then (this.(items := items - {key}), Found(None))
          else (this, Found(Some(items[key].value)))
        case Set(key, value, ttl, now, _) =>
          (this.(items := items[key := NewItem(value, ttl, now)]).SweepAt(now, false), Done)
        case Delete(key, _) => (this.(items := items - {key}), Done)
        case Sweep(now) => (SweepAt(now, true), Done)
    }
  }

  method RemoveExpired(items: Items, now: Time) returns (kept: Items, changed: bool)
    ensures kept == Unexpired(items, now)
    ensures changed == exists k :: k in items && items[k].Expired(now)
  {
    kept := items;
    changed := false;
    var rest := items.Keys;
    while rest != {}
      invariant rest <= items.Keys
      invariant kept == map k | k in items && (k in rest || !items[k].Expired(now)) :: items[k]
      invariant changed == exists k :: k in items && k !in rest && items[k].Expired(now)
      decreases |rest|
    {
      var key :| key in rest;
      if items[key].Expired(now) {
        kept := kept - {key};
        changed := true;
      }
      rest := rest - {key};
    }
  }

  class MemoryStore {
    var items: Items
    var lastSwept: Option<Time>
    const every: int

    constructor (every: int)
      ensures State() == Memory(map[], None, every)
    {
      items := map[];
      lastSwept := None;
      this.every := every;
    }

    function State(): Memory
      reads this
    {
      Memory(items, lastSwept, every)
    }

    method SweepExpired(now: Time, force: bool)
      modifies this
      ensures State() == old(State()).SweepAt(now, force)
    {
      if !force {
        if every <= 0 {
          return;
        }
        if lastSwept.Some? && now - lastSwept.value < every {
          return;
        }
      }
      var changed;
      items, changed := RemoveExpired(items, now);
      lastSwept := Some(now);
    }

    method Get(cancelled: bool, key: Key, now: Time) returns (r: Result)
      modifies this
      ensures (State(), r) == old(State()).Step(Call(Op.Get(key, now), cancelled, false))
    {
      if cancelled {
        return Error;
      }
      if key !in items {
        return Found(None);
      }
      var item := items[key];
      if item.Expired(now) {
        items := items - {key};
        return Found(None);
      }
      r := Found(Some(item.value));
    }

    method Set(cancelled: bool, key: Key, value: Bytes, ttl: int, now: Time) returns (r: Result)
      modifies this
      ensures (State(), r) == old(State()).Step(Call(Op.Set(key, value, ttl, now, now), cancelled, false))
    {
      if cancelled {
        return Error;
      }
      items := items[key := NewItem(value, ttl, now)];
      SweepExpired(now, false);
      r := Done;
    }

    method Delete(cancelled: bool, key: Key, now: Time) returns (r: Result)
      modifies this
      ensures (State(), r) == old(State()).Step(Call(Op.Delete(key, now), cancelled, false))
    {
      if cancelled {
        return Error;
      }
      items := items - {key};
      r := Done;
    }

    method Sweep(cancelled: bool, now: Time) returns (r: Result)
      modifies this
      ensures (State(), r) == old(State()).Step(Call(Op.Sweep(now), cancelled, false))
    {
      if cancelled {
        return Error;
      }
      SweepExpired(now, true);
      r := Done;
    }
  }

  // ---------------------------------------------------------------- the file store

  /** What the store's path holds; a document is replaced as a whole or not at all. */
  datatype Disk = NoFile | EmptyFile | Garbled | Document(version: int, items: Option<Items>)

  datatype LoadResult = Loaded(items: Items) | LoadError

  function Load(disk: Disk): LoadResult {
    match disk
    case NoFile => Loaded(map[])
    case EmptyFile => LoadError
    case Garbled => LoadError
    case Document(version, items) =>
      if version != 1 then LoadError else Loaded(if items.Some? then items.value else map[])
  }

  datatype File = File(items: Items, disk: Disk) {
    /** What a fresh load of the file would yield is what is in memory. */
    predicate Durable() { Load(disk) == Loaded(items) }

    /** Saving the given items, or failing and staying as it was. */
    function Commit(next: Items, fails: bool, r: Result): (File, Result) {
      if fails then (this, Error) else (File(next, Document(1, Some(next))), r)
    }

    function Step(call: Call): (File, Result) {
      if call.cancelled then (this, Error)
      else match call.op
        case Get(key, now) =>
          if key !in items then (this, Found(None))
          else if items[key].Expired(now) then Commit(items - {key}, call.saveFails, Found(None))
          else (this, Found(Some(items[key].value)))
        case Set(key, value, ttl, now, sweepAt) =>
          Commit(Unexpired(items[key := NewItem(value, ttl, now)], sweepAt), call.saveFails, Done)
        case Delete(key, _) =>
          if key !in items then (this, Done) else Commit(items - {key}, call.saveFails, Done)
        case Sweep(now) =>
          if Unexpired(items, now) == items then (this, Done) else Commit(Unexpired(items, now), call.saveFails, Done)
    }
  }

  class FileStore {
    var items: Items
    var disk: Disk

    /** Opening fails on a file that is there but cannot be loaded; the file itself is left alone. */
    static method Open(disk: Disk) returns (store: FileStore?)
      ensures store != null <==> Load(disk).Loaded?
      ensures store != null ==> fresh(store) && store.disk == disk && store.State().Durable()
    {
      var result := Load(disk);
      if result.LoadError? {
        return null;
      }
      store := new FileStore(result.items, disk);
    }

    constructor (items: Items, disk: Disk)
      requires Load(disk) == Loaded(items)
      ensures State() == File(items, disk)
    {
      this.items := items;
      this.disk := disk;
    }

    function State(): File
      reads this
    {
      File(items, disk)
    }

    method Save(fails: bool) returns (ok: bool)
      modifies this`disk
      ensures ok == !fails
      ensures disk == if ok then Document(1, Some(items)) else old(disk)
    {
      if fails {
        return false;
      }
      disk := Document(1, Some(items));
      ok := true;
    }

    method Get(cancelled: bool, saveFails: bool, key: Key, now: Time) returns (r: Result)
      modifies this
      ensures (State(), r) == old(State()).Step(Call(Op.Get(key, now), cancelled, saveFails))
    {
      if cancelled {
        return Error;
      }
      if key !in items {
        return Found(None);
      }
      var item := items[key];
      if item.Expired(now) {
        var before := items;
        items := items - {key};
        var ok := Save(saveFails);
        if !ok {
          items := before;
          return Error;
        }
        return Found(None);
      }
      r := Found(Some(item.value));
    }

    method Set(cancelled: bool, saveFails: bool, key: Key, value: Bytes, ttl: int, now: Time, sweepAt: Time)
      returns (r: Result)
      modifies this
      ensures (State(), r) == old(State()).Step(Call(Op.Set(key, value, ttl, now, sweepAt), cancelled, saveFails))
    {
      if cancelled {
        return Error;
      }
      var before := items;
      items := items[key := NewItem(value, ttl, now)];
      var changed;
      items, changed := RemoveExpired(items, sweepAt);
      var ok := Save(saveFails);
      if !ok {
        items := before;
        return Error;
      }
      r := Done;
    }

    method Delete(cancelled: bool, saveFails: bool, key: Key, now: Time) returns (r: Result)
      modifies this
      ensures (State(), r) == old(State()).Step(Call(Op.Delete(key, now), cancelled, saveFails))
    {
      if cancelled {
        return Error;
      }
      if key !in items {
        return Done;
      }
      var before := items;
      items := items - {key};
      var ok := Save(saveFails);
      if !ok {
        items := before;
        return Error;
      }
      r := Done;
    }

    method Sweep(cancelled: bool, saveFails: bool, now: Time) returns (r: Result)
      modifies this
      ensures (State(), r) == old(State()).Step(Call(Op.Sweep(now), cancelled, saveFails))
    {
      if cancelled {
        return Error;
      }
      var before := items;
      var changed;
      items, changed := RemoveExpired(items, now);
      if !changed {
        assert Unexpired(before, now) == before;
        return Done;
      }
      assert Unexpired(before, now) != before by {
        var k :| k in before && before[k].Expired(now);
        assert k !in Unexpired(before, now);
      }
      var ok := Save(saveFails);
      if !ok {
        items := before;
        return Error;
      }
      r := Done;
    }
  }
}
