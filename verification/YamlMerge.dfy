/** Laws of merging defaults into a configuration and of synchronising plugin entries. */
module YamlMerge {
  import opened Common
  import opened YamlTree
  import opened YamlLaws

  // ---------------------------------------------------------------- what a merge does to each key and path

  /** What merging makes of a key, from what the two sides have for it. */
  function Combine(existing: Option<Tree>, value: Option<Tree>): Option<Tree> {
    if value.None? then existing
    else if existing.None? then value
    else Some(MergeValue(existing.value, value.value).0)
  }

  lemma GetAfterMergeEntry(target: seq<Tree>, key: Tree, value: Tree, k: string)
    requires Even(target)
    ensures Even(MergeEntry(target, key, value).0)
    ensures Get(MergeEntry(target, key, value).0, k) ==
              if k == key.value then Combine(Get(target, k), Some(value)) else Get(target, k)
  {
    var placed := if Get(target, key.value).None? then value else MergeValue(Get(target, key.value).value, value).0;
    GetAfterPlace(target, key, placed, k);
  }

  /** Key by key, a merge takes the default where the target has none and combines where both have one. */
  lemma {:induction false} GetAfterMerge(target: seq<Tree>, defaults: seq<Tree>, k: string)
    requires Even(target) && Keyed(defaults)
    ensures Even(MergeContent(target, defaults).0)
    ensures Get(MergeContent(target, defaults).0, k) == Combine(Get(target, k), Get(defaults, k))
    decreases |defaults|
  {
    if |defaults| >= 2 {
      var first := MergeEntry(target, defaults[0], defaults[1]).0;
      GetAfterMergeEntry(target, defaults[0], defaults[1], k);
      GetAfterMerge(first, defaults[2..], k);
    }
  }

  /** Every node on the way, short of the end, that the target has is a mapping or null, so defaults can get through. */
  ghost predicate OpenWay(t: Tree, path: Path) {
    forall i :: 0 < i < |path| ==> OpenAt(t, path[..i])
  }

  ghost predicate OpenAt(t: Tree, prefix: Path) {
    Resolve(t, prefix).Some? ==> Resolve(t, prefix).value.IsMapping() || Resolve(t, prefix).value.IsNull()
  }

  lemma OpenWayStep(t: Tree, path: Path)
    requires |path| > 1 && OpenWay(t, path) && Lookup(t, path[0]).Some?
    ensures Lookup(t, path[0]).value.IsMapping() || Lookup(t, path[0]).value.IsNull()
    ensures OpenWay(Lookup(t, path[0]).value, path[1..])
  {
    var child, rest := Lookup(t, path[0]).value, path[1..];
    assert path[..1][0] == path[0] && path[..1][1..] == [];
    assert Resolve(t, path[..1]) == Some(child) && OpenAt(t, path[..1]);
    forall i | 0 < i < |rest| ensures OpenAt(child, rest[..i]) {
      assert path[..i + 1][0] == path[0] && path[..i + 1][1..] == rest[..i];
      assert OpenAt(t, path[..i + 1]);
    }
  }

  lemma LookupAfterMerge(t: Tree, d: Tree, key: string)
    requires t.IsMapping() && d.IsMapping() && Proper(t) && Unique(d)
    ensures Lookup(Merge(t, d).0, key) == Combine(Lookup(t, key), Lookup(d, key))
  {
    GetAfterMerge(t.content, d.content, key);
  }

  /** Something the user set: neither null nor a mapping. */
  predicate IsUserValue(value: Option<Tree>) { value.Some? && !value.value.IsNull() && !value.value.IsMapping() }

  /** The mappings that a path goes through alternate keys and values. */
  predicate EvenAlong(t: Tree, path: Path)
    decreases |path|
  {
    t.IsMapping() ==>
      && Even(t.content)
      && (path != [] && Lookup(t, path[0]).Some? ==> EvenAlong(Lookup(t, path[0]).value, path[1..]))
  }

  lemma {:induction false} ProperIsEvenAlong(t: Tree, path: Path)
    requires Proper(t)
    ensures EvenAlong(t, path)
    decreases |path|
  {
    if path != [] && Lookup(t, path[0]).Some? {
      ChildOf(t, path[0]);
      ProperIsEvenAlong(Lookup(t, path[0]).value, path[1..]);
    }
  }

  lemma UserValueHasNoNullAbove(t: Tree, path: Path)
    requires IsUserValue(Resolve(t, path))
    ensures !t.IsNull()
  {
    if t.IsNull() && path != [] {
      NothingBelowEmpty(t, path);
    }
  }

  lemma {:induction false} UserValueSurvives(t: Tree, defaults: seq<Tree>, path: Path)
    requires t.IsMapping() && EvenAlong(t, path) && IsUserValue(Resolve(t, path))
    ensures
      var t' := t.(content := MergeContent(t.content, defaults).0);
      EvenAlong(t', path) && Resolve(t', path) == Resolve(t, path)
    decreases defaults
  {
    if |defaults| >= 2 {
      var key, value, existing := defaults[0], defaults[1], Lookup(t, path[0]).value;
      var t1 := t.(content := MergeEntry(t.content, key, value).0);
      GetAfterMergeEntry(t.content, key, value, path[0]);
      if key.value == path[0] {
        assert Lookup(t1, path[0]) == Some(MergeValue(existing, value).0);
        if existing.IsMapping() && value.IsMapping() {
          UserValueSurvives(existing, value.content, path[1..]);
        } else {
          UserValueHasNoNullAbove(existing, path[1..]);
        }
      } else {
        assert Lookup(t1, path[0]) == Lookup(t, path[0]);
      }
      UserValueSurvives(t1, defaults[2..], path);
    }
  }

  /** Each value of the user stays exactly as it was, wherever it is, and whatever keys the defaults repeat. */
  lemma MergeKeepsUserValues(t: Tree, d: Tree, path: Path)
    requires t.IsMapping() && Proper(t) && IsUserValue(Resolve(t, path))
    ensures Resolve(Merge(t, d).0, path) == Resolve(t, path)
  {
    ProperIsEvenAlong(t, path);
    UserValueSurvives(t, d.content, path);
  }

  /**
   A default whose way is not blocked resolves after the merge: to itself where the target had nothing, else merged.
   */
  lemma {:induction false} MergeCoversDefaults(t: Tree, d: Tree, path: Path)
    requires path != [] && t.IsMapping() && d.IsMapping() && Proper(t) && Unique(d)
    requires Resolve(d, path).Some? && OpenWay(t, path)
    ensures Resolve(Merge(t, d).0, path) == Combine(Resolve(t, path), Resolve(d, path))
    decreases |path|
  {
    var key := path[0];
    LookupAfterMerge(t, d, key);
    if |path| == 1 {
      assert path[1..] == [];
    } else if Lookup(t, key).Some? {
      OpenWayStep(t, path);
      ChildOf(t, key);
      var existing, value := Lookup(t, key).value, Lookup(d, key).value;
      if existing.IsMapping() {
        MergeCoversDefaults(existing, value, path[1..]);
      } else {
        NothingBelowEmpty(existing, path[1..]);
      }
    }
  }

  /** Nothing resolves after a merge that resolved in neither side, and what only the target had is untouched. */
  lemma {:induction false} MergeAddsOnlyDefaults(t: Tree, d: Tree, path: Path)
    requires t.IsMapping() && d.IsMapping() && Proper(t) && Unique(d) && Resolve(d, path) == None
    ensures Resolve(Merge(t, d).0, path) == Resolve(t, path)
    decreases |path|
  {
    var key := path[0];
    LookupAfterMerge(t, d, key);
    if Lookup(d, key).Some? {
      assert path[1..] != [] by {
        assert path[1..] == [] ==> Resolve(d, path).Some?;
      }
      var value := Lookup(d, key).value;
      if Lookup(t, key).Some? {
        var existing := Lookup(t, key).value;
        ChildOf(t, key);
        if existing.IsMapping() && value.IsMapping() {
          MergeAddsOnlyDefaults(existing, value, path[1..]);
        } else if existing.IsNull() {
          NothingBelowEmpty(existing, path[1..]);
        }
      }
    }
  }

  /** Keys that the target had keep their nodes and their places; new ones come after them. */
  lemma {:induction false} MergeKeepsOrder(target: seq<Tree>, defaults: seq<Tree>, i: nat)
    requires Even(target) && i < |target| && i % 2 == 0
    ensures
      var merged := MergeContent(target, defaults).0;
      Even(merged) && |target| <= |merged| && merged[i] == target[i]
    decreases |defaults|
  {
    if |defaults| >= 2 {
      var first := MergeEntry(target, defaults[0], defaults[1]).0;
      PlaceKeepsKeys(target, defaults[0],
        if Get(target, defaults[0].value).None? then defaults[1]
        else MergeValue(Get(target, defaults[0].value).value, defaults[1]).0, i);
      MergeKeepsOrder(first, defaults[2..], i);
    }
  }

  lemma {:induction false} PlaceKeepsKeys(content: seq<Tree>, key: Tree, value: Tree, i: nat)
    requires Even(content) && i < |content| && i % 2 == 0
    ensures
      var placed := Place(content, key, value);
      Even(placed) && |content| <= |placed| && placed[i] == content[i]
  {
    FoundIsEven(content, key.value);
  }

  lemma {:induction false} FoundIsEven(content: seq<Tree>, key: string)
    ensures Find(content, key).Some? ==> Find(content, key).value % 2 == 0
    decreases |content|
  {
    if |content| >= 2 && content[0].value != key {
      FoundIsEven(content[2..], key);
    }
  }

  // ---------------------------------------------------------------- reports, idempotence

  /** A merge that reports no change has made none. */
  lemma {:induction false} QuietMergeChangesNothing(target: seq<Tree>, defaults: seq<Tree>)
    requires !MergeContent(target, defaults).1
    ensures MergeContent(target, defaults).0 == target
    decreases defaults, 0
  {
    if |defaults| >= 2 {
      var existing := Get(target, defaults[0].value);
      assert !MergeEntry(target, defaults[0], defaults[1]).1;
      QuietValueChangesNothing(existing.value, defaults[1]);
      assert Place(target, defaults[0], existing.value) == target;
      QuietMergeChangesNothing(target, defaults[2..]);
    }
  }

  lemma {:induction false} QuietValueChangesNothing(existing: Tree, value: Tree)
    requires !MergeValue(existing, value).1
    ensures MergeValue(existing, value).0 == existing
    decreases value, 1
  {
    if existing.IsMapping() && value.IsMapping() {
      QuietMergeChangesNothing(existing.content, value.content);
    }
  }

  /** Every default is there already, and merging its value would leave what is there as it is. */
  ghost predicate Settled(target: seq<Tree>, defaults: seq<Tree>)
    decreases |defaults|
  {
    |defaults| >= 2 ==>
      && Get(target, defaults[0].value).Some?
      && MergeValue(Get(target, defaults[0].value).value, defaults[1]).0 == Get(target, defaults[0].value).value
      && Settled(target, defaults[2..])
  }

  lemma {:induction false} SettledStays(target: seq<Tree>, defaults: seq<Tree>)
    requires Settled(target, defaults)
    ensures MergeContent(target, defaults).0 == target
    decreases |defaults|
  {
    if |defaults| >= 2 {
      assert Place(target, defaults[0], Get(target, defaults[0].value).value) == target;
      SettledStays(target, defaults[2..]);
    }
  }

  /**
   Merging a value a second time changes nothing, whatever it met the first time; and merging it into itself neither.
   */
  lemma {:induction false} MergeValueTwice(existing: Tree, value: Tree)
    requires Proper(existing) && Proper(value) && Unique(value)
    ensures MergeValue(MergeValue(existing, value).0, value).0 == MergeValue(existing, value).0
    ensures MergeValue(value, value).0 == value
    decreases value, 1
  {
    if value.IsMapping() {
      SelfSettled(value.content, value.content, value);
      SettledStays(value.content, value.content);
      if existing.IsMapping() {
        MergedIsSettled(existing.content, value.content, value.content, existing, value);
        SettledStays(MergeContent(existing.content, value.content).0, value.content);
      }
    }
  }

  /** The tail of a keyed content: its entries are found in the whole by their keys. */
  ghost predicate IsTail(tail: seq<Tree>, whole: seq<Tree>) {
    && (forall c :: c in tail ==> c in whole)
    && Even(tail) && Keyed(tail)
    && forall k :: Get(tail, k).Some? ==> Get(whole, k) == Get(tail, k)
  }

  lemma TailStep(tail: seq<Tree>, whole: seq<Tree>)
    requires IsTail(tail, whole) && |tail| >= 2
    ensures IsTail(tail[2..], whole) && Get(whole, tail[0].value) == Some(tail[1])
  {
    assert Get(tail, tail[0].value) == Some(tail[1]);
    forall k | Get(tail[2..], k).Some? ensures Get(whole, k) == Get(tail[2..], k) {
      assert k != tail[0].value;
      assert Get(tail, k) == Get(tail[2..], k);
    }
  }

  lemma {:induction false} SelfSettled(whole: seq<Tree>, tail: seq<Tree>, value: Tree)
    requires value.IsMapping() && whole == value.content && Proper(value) && Unique(value) && IsTail(tail, whole)
    ensures Settled(whole, tail)
    decreases value, 0, |tail|
  {
    if |tail| >= 2 {
      TailStep(tail, whole);
      assert tail[1] in whole;
      MergeValueTwice(tail[1], tail[1]);
      SelfSettled(whole, tail[2..], value);
    }
  }

  lemma {:induction false} MergedIsSettled(target: seq<Tree>, whole: seq<Tree>, tail: seq<Tree>,
                                           existing: Tree, value: Tree)
    requires existing.IsMapping() && target == existing.content && Proper(existing)
    requires value.IsMapping() && whole == value.content && Proper(value) && Unique(value) && IsTail(tail, whole)
    ensures Settled(MergeContent(target, whole).0, tail)
    decreases value, 0, |tail|
  {
    if |tail| >= 2 {
      TailStep(tail, whole);
      assert tail[1] in whole;
      GetAfterMerge(target, whole, tail[0].value);
      if Get(target, tail[0].value).Some? {
        ChildOf(existing, tail[0].value);
        MergeValueTwice(Get(target, tail[0].value).value, tail[1]);
      } else {
        MergeValueTwice(tail[1], tail[1]);
      }
      MergedIsSettled(target, whole, tail[2..], existing, value);
    }
  }

  /** Merging the same defaults a second time changes nothing. */
  lemma MergeIsIdempotent(t: Tree, d: Tree)
    requires t.IsMapping() && d.IsMapping() && Proper(t) && Proper(d) && Unique(d)
    ensures Merge(Merge(t, d).0, d).0 == Merge(t, d).0
  {
    MergeValueTwice(t, d);
  }

  /** Some path is null in the defaults and in the target alike. */
  ghost predicate NullMeetsNull(t: Tree, d: Tree) {
    exists path :: NullAt(t, d, path)
  }

  ghost predicate NullAt(t: Tree, d: Tree, path: Path) {
    && Resolve(d, path).Some? && Resolve(d, path).value.IsNull()
    && Resolve(t, path).Some? && Resolve(t, path).value.IsNull()
  }

  lemma NullMeetsNullByKey(t: Tree, d: Tree)
    requires t.IsMapping() && d.IsMapping()
    ensures NullMeetsNull(t, d) <==>
              exists k :: Lookup(d, k).Some? && Lookup(t, k).Some?
                          && NullMeetsNull(Lookup(t, k).value, Lookup(d, k).value)
  {
    if path :| NullAt(t, d, path) {
      assert path != [];
      assert NullAt(Lookup(t, path[0]).value, Lookup(d, path[0]).value, path[1..]);
    }
    if k :| Lookup(d, k).Some? && Lookup(t, k).Some? && NullMeetsNull(Lookup(t, k).value, Lookup(d, k).value) {
      var path :| NullAt(Lookup(t, k).value, Lookup(d, k).value, path);
      assert ([k] + path)[1..] == path;
      assert NullAt(t, d, [k] + path);
    }
  }

  lemma NullLeaf(t: Tree, d: Tree)
    requires !(t.IsMapping() && d.IsMapping())
    ensures NullMeetsNull(t, d) <==> t.IsNull() && d.IsNull()
  {
    if t.IsNull() && d.IsNull() {
      assert NullAt(t, d, []);
    }
    forall path | path != [] ensures !NullAt(t, d, path) {
      ResolveStep(t, path);
      ResolveStep(d, path);
    }
    if path :| NullAt(t, d, path) {
      assert path == [];
    }
  }

  /** Where a merge changes nothing, it reports a change exactly if a null default meets a null value. */
  lemma {:induction false} SettledValueReports(t: Tree, d: Tree)
    requires Proper(t) && Proper(d) && Unique(d) && MergeValue(t, d).0 == t
    requires t.IsMapping() && d.IsMapping() ==> Settled(t.content, d.content)
    ensures MergeValue(t, d).1 <==> NullMeetsNull(t, d)
    decreases d, 1
  {
    if t.IsMapping() && d.IsMapping() {
      SettledContentReports(t, d, d.content);
      NullMeetsNullByKey(t, d);
    } else {
      NullLeaf(t, d);
    }
  }

  lemma {:induction false} SettledContentReports(t: Tree, d: Tree, tail: seq<Tree>)
    requires t.IsMapping() && d.IsMapping() && Proper(t) && Proper(d) && Unique(d)
    requires IsTail(tail, d.content) && Settled(t.content, tail)
    ensures MergeContent(t.content, tail).1 <==>
              exists k :: Get(tail, k).Some? && Lookup(t, k).Some?
                          && NullMeetsNull(Lookup(t, k).value, Get(tail, k).value)
    decreases d, 0, |tail|
  {
    if |tail| >= 2 {
      var key := tail[0].value;
      var existing := Get(t.content, key).value;
      TailStep(tail, d.content);
      ChildOf(t, key);
      assert tail[1] in d.content;
      MergeValueTwice(existing, tail[1]);
      if existing.IsMapping() && tail[1].IsMapping() {
        StaySettled(existing, tail[1]);
      }
      SettledValueReports(existing, tail[1]);
      assert Place(t.content, tail[0], existing) == t.content;
      SettledContentReports(t, d, tail[2..]);
      forall k | k != key ensures Get(tail, k) == Get(tail[2..], k) {}
      assert Get(tail, key) == Some(tail[1]) && Get(tail[2..], key) == None;
    }
  }

  lemma {:induction false} StaySettled(t: Tree, d: Tree)
    requires t.IsMapping() && d.IsMapping() && Proper(t) && Proper(d) && Unique(d) && MergeValue(t, d).0 == t
    ensures Settled(t.content, d.content)
  {
    MergedIsSettled(t.content, d.content, d.content, t, d);
  }

  // ---------------------------------------------------------------- merging keeps trees well shaped

  lemma {:induction false} MergeValueKeepsShape(existing: Tree, value: Tree)
    requires Proper(existing) && Proper(value) && existing.kind != Zero && value.kind != Zero
    ensures Proper(MergeValue(existing, value).0) && MergeValue(existing, value).0.kind != Zero
    decreases value, 1
  {
    if existing.IsMapping() && value.IsMapping() {
      MergeKeepsShape(existing, value.content);
    }
  }

  lemma {:induction false} MergeKeepsShape(t: Tree, defaults: seq<Tree>)
    requires t.IsMapping() && Proper(t) && forall c :: c in defaults ==> Proper(c) && c.kind != Zero
    ensures Proper(t.(content := MergeContent(t.content, defaults).0))
    decreases defaults, 0
  {
    if |defaults| >= 2 {
      var key, value := defaults[0], defaults[1];
      assert key in defaults && value in defaults;
      var existing := Get(t.content, key.value);
      if existing.Some? {
        ChildOf(t, key.value);
        MergeValueKeepsShape(existing.value, value);
        PlaceKeepsShape(t, key, MergeValue(existing.value, value).0);
      } else {
        PlaceKeepsShape(t, key, value);
      }
      MergeKeepsShape(t.(content := MergeEntry(t.content, key, value).0), defaults[2..]);
    }
  }

  /** A second merge of the same defaults reports a change exactly when a null default is still null in the result. */
  lemma SecondMergeReports(t: Tree, d: Tree)
    requires t.IsMapping() && d.IsMapping() && Proper(t) && Proper(d) && Unique(d)
    ensures Merge(Merge(t, d).0, d).1 <==> NullMeetsNull(Merge(t, d).0, d)
  {
    var t' := Merge(t, d).0;
    MergeIsIdempotent(t, d);
    MergeKeepsShape(t, d.content);
    StaySettled(t', d);
    SettledValueReports(t', d);
  }

  /** So without a null leaf in the defaults the second merge is quiet. */
  lemma NoNullDefaultIsQuiet(t: Tree, d: Tree)
    requires t.IsMapping() && d.IsMapping() && Proper(t) && Proper(d) && Unique(d)
    requires forall path :: Resolve(d, path).Some? ==> !Resolve(d, path).value.IsNull()
    ensures !Merge(Merge(t, d).0, d).1
  {
    SecondMergeReports(t, d);
  }

  /** And a null default that meets nothing, or null, is reported as a change every time. */
  lemma {:induction false} NullDefaultIsNeverQuiet(t: Tree, d: Tree, path: Path)
    requires t.IsMapping() && d.IsMapping() && Proper(t) && Proper(d) && Unique(d) && path != []
    requires Resolve(d, path).Some? && Resolve(d, path).value.IsNull() && OpenWay(t, path)
    requires Resolve(t, path).None? || Resolve(t, path).value.IsNull()
    ensures Merge(Merge(t, d).0, d).1
  {
    MergeCoversDefaults(t, d, path);
    assert NullAt(Merge(t, d).0, d, path);
    SecondMergeReports(t, d);
  }

  /** A path that is null in the defaults, that nothing blocks, and where the target has nothing or null. */
  ghost predicate NullStaysAt(t: Tree, d: Tree, path: Path) {
    && path != [] && Resolve(d, path).Some? && Resolve(d, path).value.IsNull()
    && OpenWay(t, path) && (Resolve(t, path).None? || Resolve(t, path).value.IsNull())
  }

  ghost predicate NullStays(t: Tree, d: Tree) {
    exists path :: NullStaysAt(t, d, path)
  }

  /** A null that meets a null default after a merge was let through by the target before it. */
  lemma {:induction false} NullWasLetThrough(t: Tree, d: Tree, path: Path)
    requires t.IsMapping() && d.IsMapping() && Proper(t) && Unique(d) && path != [] && NullAt(Merge(t, d).0, d, path)
    ensures NullStaysAt(t, d, path)
    decreases |path|
  {
    var key := path[0];
    LookupAfterMerge(t, d, key);
    if |path| == 1 {
      assert path[1..] == [];
    } else if Lookup(t, key).Some? {
      var existing, value, rest := Lookup(t, key).value, Lookup(d, key).value, path[1..];
      ChildOf(t, key);
      if existing.IsMapping() {
        NullWasLetThrough(existing, value, rest);
      } else if existing.IsNull() {
        forall i | 0 < i < |rest| ensures OpenAt(existing, rest[..i]) {
          NothingBelowEmpty(existing, rest[..i]);
        }
        NothingBelowEmpty(existing, rest);
        assert OpenWay(existing, rest);
      } else {
        ResolveStep(existing, rest);
      }
    }
    OpenWayJoin(t, path);
  }

  /** On the two inputs: a second merge reports a change exactly when the target lets a null default through. */
  lemma SecondMergeReportsIff(t: Tree, d: Tree)
    requires t.IsMapping() && d.IsMapping() && Proper(t) && Proper(d) && Unique(d)
    ensures Merge(Merge(t, d).0, d).1 <==> NullStays(t, d)
  {
    SecondMergeReports(t, d);
    if path :| NullAt(Merge(t, d).0, d, path) {
      assert path != [];
      NullWasLetThrough(t, d, path);
    }
    if path :| NullStaysAt(t, d, path) {
      NullDefaultIsNeverQuiet(t, d, path);
    }
  }

  // ---------------------------------------------------------------- what a merge fills in

  /** A path of the defaults that nothing in the target blocks, and where the target has nothing or null. */
  ghost predicate FilledAt(t: Tree, d: Tree, path: Path) {
    && path != [] && Resolve(d, path).Some?
    && OpenWay(t, path) && (Resolve(t, path).None? || Resolve(t, path).value.IsNull())
  }

  /** Such a path takes exactly the default. */
  lemma MergeFillsIn(t: Tree, d: Tree, path: Path)
    requires t.IsMapping() && d.IsMapping() && Proper(t) && Unique(d) && FilledAt(t, d, path)
    ensures Resolve(Merge(t, d).0, path) == Resolve(d, path)
  {
    MergeCoversDefaults(t, d, path);
  }

  /** Some key gives a merge its reason to report a change. */
  lemma {:induction false} ReportHasKey(target: seq<Tree>, defaults: seq<Tree>) returns (k: string)
    requires Even(target) && Keyed(defaults) && MergeContent(target, defaults).1
    ensures Get(defaults, k).Some?
    ensures Get(target, k).None? || MergeValue(Get(target, k).value, Get(defaults, k).value).1
    decreases |defaults|
  {
    k := defaults[0].value;
    var (first, changed) := MergeEntry(target, defaults[0], defaults[1]);
    if !changed {
      GetAfterMergeEntry(target, defaults[0], defaults[1], k);
      var rest := ReportHasKey(first, defaults[2..]);
      GetAfterMergeEntry(target, defaults[0], defaults[1], rest);
      k := rest;
    }
  }

  lemma {:induction false} ReportHasPath(t: Tree, d: Tree) returns (path: Path)
    requires t.IsMapping() && d.IsMapping() && Proper(t) && Proper(d) && Unique(d) && Merge(t, d).1
    ensures FilledAt(t, d, path)
    decreases d
  {
    var k := ReportHasKey(t.content, d.content);
    ChildOf(d, k);
    path := [k];
    assert path[1..] == [];
    ResolveStep(t, path);
    if Lookup(t, k).Some? && !Lookup(t, k).value.IsNull() {
      ChildOf(t, k);
      var rest := ReportHasPath(Lookup(t, k).value, Lookup(d, k).value);
      path := [k] + rest;
      assert path[1..] == rest;
      OpenWayJoin(t, path);
    }
  }

  /** A merge reports a change exactly when it filled some path in. */
  lemma {:induction false} MergeReportsIff(t: Tree, d: Tree)
    requires t.IsMapping() && d.IsMapping() && Proper(t) && Proper(d) && Unique(d)
    ensures Merge(t, d).1 <==> exists path :: FilledAt(t, d, path)
  {
    if Merge(t, d).1 {
      var path := ReportHasPath(t, d);
    } else if path :| FilledAt(t, d, path) {
      QuietMergeChangesNothing(t.content, d.content);
      MergeFillsIn(t, d, path);
      StaySettled(t, d);
      SettledValueReports(t, d);
      assert NullAt(t, d, path);
    }
  }

  // ---------------------------------------------------------------- resetting, then filling in defaults

  lemma OpenWayJoin(t: Tree, path: Path)
    requires path != []
    requires |path| > 1 && Lookup(t, path[0]).Some? ==>
               var child := Lookup(t, path[0]).value;
               (child.IsMapping() || child.IsNull()) && OpenWay(child, path[1..])
    ensures OpenWay(t, path)
  {
    forall i | 0 < i < |path| ensures OpenAt(t, path[..i]) {
      assert path[..i][0] == path[0] && path[..i][1..] == path[1..][..i - 1];
      ResolveStep(t, path[..i]);
      if Lookup(t, path[0]).Some? && i > 1 {
        assert OpenAt(Lookup(t, path[0]).value, path[1..][..i - 1]);
      }
    }
  }

  /** A removal that succeeds leaves the way to the removed path open for defaults. */
  lemma {:induction false} RemovalLeavesWayOpen(t: Tree, path: Path)
    requires path != [] && Proper(t) && Unique(t) && RemovePath(t, path).Edited?
    ensures OpenWay(RemovePath(t, path).tree, path)
    decreases |path|
  {
    var t' := RemovePath(t, path).tree;
    var key := path[0];
    if |path| > 1 && Lookup(t, key).Some? {
      ChildOf(t, key);
      var existing, rest := Lookup(t, key).value, path[1..];
      if existing.IsEmpty() {
        forall i | 0 < i < |rest| ensures OpenAt(existing, rest[..i]) {
          NothingBelowEmpty(existing, rest[..i]);
        }
      } else {
        var child := RemovePath(existing, rest).tree;
        RemovalLeavesWayOpen(existing, rest);
        RemovedIff(existing, rest);
        RemoveKeepsMapping(existing, rest);
        GetAfterPut(t.content, key, child, key);
        GetAfterDrop(t.content, key, key);
      }
    }
    OpenWayJoin(t', path);
  }

  lemma {:induction false} OpenStays(t: Tree, path: Path, q: Path)
    requires path != [] && Proper(t) && Unique(t) && RemovePath(t, path).Edited? && OpenWay(t, q)
    ensures OpenWay(RemovePath(t, path).tree, q)
  {
    forall i | 0 < i < |q| ensures OpenAt(RemovePath(t, path).tree, q[..i]) {
      assert OpenAt(t, q[..i]);
      RemoveOnlyRemoves(t, path, q[..i]);
    }
  }

  /** What a removal cleared stays clear through the removals after it. */
  lemma {:induction false} RemoveAllStaysClear(config: Tree, paths: seq<Path>, q: Path)
    requires config.IsMapping() && Proper(config) && Unique(config) && RemoveAll(config, paths).1.Some?
    ensures
      var config' := RemoveAll(config, paths).0;
      && config'.IsMapping() && Proper(config')
      && (Resolve(config, q) == None && OpenWay(config, q) ==> Resolve(config', q) == None && OpenWay(config', q))
    decreases |paths|
  {
    if paths != [] {
      var first := RemovePath(config, paths[0]).tree;
      RemoveKeepsShape(config, paths[0]);
      RemoveKeepsUnique(config, paths[0]);
      RemoveOnlyRemoves(config, paths[0], q);
      if OpenWay(config, q) {
        OpenStays(config, paths[0], q);
      }
      RemoveAllStaysClear(first, paths[1..], q);
    }
  }

  /** A batch of removals clears every path in it. */
  lemma {:induction false} RemoveAllClears(config: Tree, paths: seq<Path>, q: Path)
    requires config.IsMapping() && Proper(config) && Unique(config) && RemoveAll(config, paths).1.Some? && q in paths
    ensures
      var config' := RemoveAll(config, paths).0;
      config'.IsMapping() && Proper(config') && Resolve(config', q) == None && OpenWay(config', q)
    decreases |paths|
  {
    var first := RemovePath(config, paths[0]).tree;
    RemoveKeepsShape(config, paths[0]);
    RemoveKeepsUnique(config, paths[0]);
    if q == paths[0] {
      RemovedIsGone(config, q);
      RemovalLeavesWayOpen(config, q);
      RemoveAllStaysClear(first, paths[1..], q);
    } else {
      RemoveAllClears(first, paths[1..], q);
    }
  }

  /** The configuration of an entry. */
  function Config(entry: Tree): Option<Tree> { Lookup(entry, CONFIG) }

  lemma EnsureEntryKeepsShape(entry: Tree)
    requires Proper(entry) && EnsureEntry(entry).Some?
    ensures Proper(EnsureEntry(entry).value) && EnsureEntry(entry).value.IsMapping()
    ensures Unique(entry) ==> Unique(EnsureEntry(entry).value)
  {
  }

  lemma FilledConfig(entry: Tree, d: Tree, path: Path)
    requires Proper(entry) && entry.IsMapping() && Proper(d) && Unique(d) && d.IsMapping()
    requires path != [] && Resolve(d, path).Some?
    requires Config(entry).Some? && !Config(entry).value.IsEmpty() ==>
               && Config(entry).value.IsMapping() && Proper(Config(entry).value)
               && Resolve(Config(entry).value, path) == None && OpenWay(Config(entry).value, path)
    ensures FillConfig(entry, d).Edited?
    ensures Config(FillConfig(entry, d).tree).Some?
    ensures Resolve(Config(FillConfig(entry, d).tree).value, path) == Resolve(d, path)
  {
    var config := Config(entry);
    if config.None? || config.value.IsEmpty() {
      GetAfterPut(entry.content, CONFIG, d, CONFIG);
    } else {
      GetAfterPut(entry.content, CONFIG, Merge(config.value, d).0, CONFIG);
      MergeCoversDefaults(config.value, d, path);
    }
  }

  /**
   Resetting paths, and then filling defaults in, makes each that the defaults have resolve to exactly the default.
   */
  lemma {:induction false} ResetThenFillRestoresDefaults(entry: Tree, d: Tree, paths: seq<Path>, path: Path)
    requires Proper(entry) && Unique(entry) && Proper(d) && Unique(d) && d.IsMapping()
    requires ResetPaths(entry, paths).1.Some? && path in paths && path != [] && Resolve(d, path).Some?
    ensures
      var filled := FillConfig(ResetPaths(entry, paths).0, d);
      filled.Edited? && Config(filled.tree).Some? && Resolve(Config(filled.tree).value, path) == Resolve(d, path)
  {
    EnsureEntryKeepsShape(entry);
    var e := EnsureEntry(entry).value;
    var reset := ResetPaths(entry, paths).0;
    if Config(e).Some? && !Config(e).value.IsEmpty() {
      ChildOf(e, CONFIG);
      var config := Config(e).value;
      var config' := RemoveAll(config, paths).0;
      RemoveAllClears(config, paths, path);
      ReplacedConfig(e, config');
    }
    FilledConfig(reset, d, path);
  }

  lemma {:induction false} ReplacedConfig(e: Tree, config: Tree)
    requires Proper(e) && e.IsMapping() && Proper(config) && config.kind != Zero
    ensures var e' := e.(content := Put(e.content, CONFIG, config)); Proper(e') && Config(e') == Some(config)
  {
    GetAfterPut(e.content, CONFIG, config, CONFIG);
    PlaceKeepsShape(e, Scalar(CONFIG), config);
  }

  // ---------------------------------------------------------------- synchronising an entry

  lemma GetAfterPrepend(content: seq<Tree>, key: Tree, value: Tree, k: string)
    ensures Get([key, value] + content, k) == if k == key.value then Some(value) else Get(content, k)
  {
    assert ([key, value] + content)[2..] == content;
  }

  lemma {:induction false} PrependKeepsShape(t: Tree, key: Tree, value: Tree)
    requires t.IsMapping() && Proper(t) && Proper(key) && Proper(value) && key.kind != Zero && value.kind != Zero
    ensures Proper(t.(content := [key, value] + t.content))
  {
    hide Proper;
    var front := [key, value] + t.content;
    ProperParts(t);
    assert |front| == 2 + |t.content|;
    forall c | c in front ensures c.kind != Zero && Proper(c) {
      var i :| 0 <= i < |front| && front[i] == c;
      assert i >= 2 ==> front[i] == t.content[i - 2];
    }
    MakeProper(t.(content := front));
  }

  lemma {:induction false} FillEnabledIs(entry: Tree)
    requires Proper(entry) && FillEnabled(entry).Edited?
    ensures
      var e := FillEnabled(entry).tree;
      && e.IsMapping() && Proper(e) && Lookup(e, ENABLED).Some? && !Lookup(e, ENABLED).value.IsNull()
      && Config(e) == Config(entry)
      && (!FillEnabled(entry).changed ==> e == entry)
  {
    assert ENABLED != CONFIG by { assert |ENABLED| != |CONFIG|; }
    EnsureEntryKeepsShape(entry);
    hide Proper, Find;
    var e := EnsureEntry(entry).value;
    ProperLeaf(Scalar(ENABLED));
    ProperLeaf(Bool(true));
    if Lookup(e, ENABLED).None? {
      PrependKeepsShape(e, Scalar(ENABLED), Bool(true));
      GetAfterPrepend(e.content, Scalar(ENABLED), Bool(true), ENABLED);
      GetAfterPrepend(e.content, Scalar(ENABLED), Bool(true), CONFIG);
    } else {
      ProperIsEven(e);
      GetAfterPut(e.content, ENABLED, Bool(true), ENABLED);
      GetAfterPut(e.content, ENABLED, Bool(true), CONFIG);
      PlaceKeepsShape(e, Scalar(ENABLED), Bool(true));
    }
  }

  lemma ProperLeaf(t: Tree)
    requires t.content == []
    ensures Proper(t)
  {
  }

  lemma {:induction false} FillConfigIs(entry: Tree, d: Tree)
    requires Proper(entry) && entry.IsMapping() && Proper(d) && Unique(d) && d.kind != Zero
    ensures
      var filled := FillConfig(entry, d);
      && filled.Edited? && filled.tree.IsMapping() && Proper(filled.tree)
      && Lookup(filled.tree, ENABLED) == Lookup(entry, ENABLED)
      && Config(filled.tree) == Some(
           if Config(entry).None? || Config(entry).value.IsEmpty() then d
           else if Config(entry).value.IsMapping() && d.IsMapping() then Merge(Config(entry).value, d).0
           else Config(entry).value)
      && (!filled.changed ==> filled.tree == entry)
  {
    assert ENABLED != CONFIG by { assert |ENABLED| != |CONFIG|; }
    var config := Config(entry);
    if config.None? || config.value.IsEmpty() {
      GetAfterPut(entry.content, CONFIG, d, CONFIG);
      GetAfterPut(entry.content, CONFIG, d, ENABLED);
      PlaceKeepsShape(entry, Scalar(CONFIG), d);
    } else if config.value.IsMapping() && d.IsMapping() {
      ChildOf(entry, CONFIG);
      var merged := Merge(config.value, d).0;
      MergeKeepsShape(config.value, d.content);
      GetAfterPut(entry.content, CONFIG, merged, CONFIG);
      GetAfterPut(entry.content, CONFIG, merged, ENABLED);
      PlaceKeepsShape(entry, Scalar(CONFIG), merged);
      if !Merge(config.value, d).1 {
        QuietMergeChangesNothing(config.value.content, d.content);
        assert Put(entry.content, CONFIG, merged) == entry.content;
      }
    }
  }

  /** A sync that reports no change has left the entry as it was. */
  lemma {:induction false} QuietSyncChangesNothing(entry: Tree, d: Tree)
    requires Proper(entry) && Proper(d) && Unique(d) && d.kind != Zero
    requires Sync(entry, d).Edited? && !Sync(entry, d).changed
    ensures Sync(entry, d).tree == entry
  {
    FillEnabledIs(entry);
    FillConfigIs(FillEnabled(entry).tree, d);
  }

  /** A sync can fail only on an entry that is neither null nor a mapping. */
  lemma SyncSucceedsIff(entry: Tree, d: Tree)
    requires Proper(entry) && Proper(d) && Unique(d) && d.kind != Zero
    ensures Sync(entry, d).Edited? <==> entry.IsNull() || entry.IsMapping()
  {
    if FillEnabled(entry).Edited? {
      FillEnabledIs(entry);
      FillConfigIs(FillEnabled(entry).tree, d);
    }
  }

  /** Filling defaults in a second time, given what the first time left as the configuration. */
  lemma {:induction false} SecondFillReports(once: Tree, config: Tree, d: Tree)
    requires Proper(once) && Proper(d) && Unique(d) && once.IsMapping() && Config(once) == Some(config)
    requires config.IsEmpty() ==> config == d
    requires config.IsMapping() && d.IsMapping() ==> Merge(config, d).0 == config
    ensures FillConfig(once, d) ==
              Edited(once, config.IsEmpty() || (config.IsMapping() && d.IsMapping() && NullMeetsNull(config, d)))
  {
    ChildOf(once, CONFIG);
    if config.IsEmpty() {
      assert Put(once.content, CONFIG, d) == once.content;
    } else if config.IsMapping() && d.IsMapping() {
      StaySettled(config, d);
      SettledValueReports(config, d);
      assert Put(once.content, CONFIG, config) == once.content;
    }
  }

  lemma FilledConfigIsStable(config: Option<Tree>, d: Tree, filled: Tree)
    requires Proper(d) && Unique(d) && (config.Some? ==> Proper(config.value))
    requires filled == if config.None? || config.value.IsEmpty() then d
                       else if config.value.IsMapping() && d.IsMapping() then Merge(config.value, d).0
                       else config.value
    ensures filled.IsEmpty() ==> filled == d
    ensures filled.IsMapping() && d.IsMapping() ==> Merge(filled, d).0 == filled
  {
    if config.Some? && !config.value.IsEmpty() && config.value.IsMapping() && d.IsMapping() {
      ConfigStaysNonEmpty(config.value, d);
      MergeIsIdempotent(config.value, d);
    } else {
      MergeValueTwice(d, d);
    }
  }

  /**
   What makes syncs report a change for ever: an empty default for an empty configuration, or a null default that the
   configuration lets through.
   */
  ghost predicate SyncNeverSettles(entry: Tree, d: Tree) {
    var config := Config(entry);
    if config.None? || config.value.IsEmpty() then d.IsEmpty() || (d.IsMapping() && NullStays(EMPTY_MAP, d))
    else config.value.IsMapping() && d.IsMapping() && NullStays(config.value, d)
  }

  lemma NullsOfDefault(d: Tree)
    requires d.IsMapping()
    ensures NullMeetsNull(d, d) <==> NullStays(EMPTY_MAP, d)
  {
    if path :| NullAt(d, d, path) {
      forall i | 0 < i < |path| ensures OpenAt(EMPTY_MAP, path[..i]) {
        NothingBelowEmpty(EMPTY_MAP, path[..i]);
      }
      NothingBelowEmpty(EMPTY_MAP, path);
      assert NullStaysAt(EMPTY_MAP, d, path);
    }
    if path :| NullStaysAt(EMPTY_MAP, d, path) {
      assert NullAt(d, d, path);
    }
  }

  /** What is left as the configuration by the first sync, reported on, against the inputs. */
  lemma FilledConfigReports(config: Option<Tree>, d: Tree, filled: Tree)
    requires Proper(d) && Unique(d) && (config.Some? ==> Proper(config.value))
    requires filled == if config.None? || config.value.IsEmpty() then d
                       else if config.value.IsMapping() && d.IsMapping() then Merge(config.value, d).0
                       else config.value
    ensures (filled.IsEmpty() || (filled.IsMapping() && d.IsMapping() && NullMeetsNull(filled, d)))
            <==> if config.None? || config.value.IsEmpty()
                 then d.IsEmpty() || (d.IsMapping() && NullStays(EMPTY_MAP, d))
                 else config.value.IsMapping() && d.IsMapping() && NullStays(config.value, d)
  {
    hide Proper, Unique, NullMeetsNull, NullStays, MergeContent;
    if config.None? || config.value.IsEmpty() {
      if d.IsMapping() {
        NullsOfDefault(d);
      }
    } else if config.value.IsMapping() && d.IsMapping() {
      ConfigStaysNonEmpty(config.value, d);
      SecondMergeReports(config.value, d);
      SecondMergeReportsIff(config.value, d);
    }
  }

  /**
   Syncing twice is syncing once.  Whether the second sync still reports a change is decided by the entry and the
   defaults; on the tree that the first one left, it is an empty configuration, or a null that meets a null default.
   */
  lemma {:induction false} SecondSyncReports(entry: Tree, d: Tree)
    requires Proper(entry) && Proper(d) && Unique(d) && d.kind != Zero && Sync(entry, d).Edited?
    ensures
      var once := Sync(entry, d).tree;
      var again := Sync(once, d);
      && again.Edited? && Config(once).Some? && again.tree == once
      && (again.changed <==>
            || Config(once).value.IsEmpty()
            || (Config(once).value.IsMapping() && d.IsMapping() && NullMeetsNull(Config(once).value, d)))
      && (again.changed <==> SyncNeverSettles(entry, d))
  {
    hide Proper, Unique, Find, MergeContent, NullMeetsNull;
    FillEnabledIs(entry);
    var e := FillEnabled(entry).tree;
    FillConfigIs(e, d);
    var once := FillConfig(e, d).tree;
    if Config(e).Some? {
      ChildOf(e, CONFIG);
    }
    FilledConfigIsStable(Config(e), d, Config(once).value);
    FilledConfigReports(Config(e), d, Config(once).value);
    SecondFillReports(once, Config(once).value, d);
    assert FillEnabled(once) == Edited(once, false);
  }

  lemma ConfigStaysNonEmpty(config: Tree, d: Tree)
    requires Proper(config) && !config.IsEmpty() && config.IsMapping() && d.IsMapping()
    ensures !Merge(config, d).0.IsEmpty()
  {
    MergeKeepsOrder(config.content, d.content, 0);
  }

  /** With a nonempty mapping without null leaves as default, the second sync is quiet. */
  lemma {:induction false} SecondSyncIsQuiet(entry: Tree, d: Tree)
    requires Proper(entry) && Proper(d) && Unique(d) && d.IsMapping() && d.content != [] && Sync(entry, d).Edited?
    requires forall path :: Resolve(d, path).Some? ==> !Resolve(d, path).value.IsNull()
    ensures Sync(Sync(entry, d).tree, d) == Edited(Sync(entry, d).tree, false)
  {
    SecondSyncReports(entry, d);
    FillEnabledIs(entry);
    var e := FillEnabled(entry).tree;
    FillConfigIs(e, d);
    var config := Config(Sync(entry, d).tree).value;
    if Config(e).Some? && !Config(e).value.IsEmpty() && Config(e).value.IsMapping() {
      ChildOf(e, CONFIG);
      ConfigStaysNonEmpty(Config(e).value, d);
    }
  }

  /**
   An entry whose configuration is missing or empty is reported as filled even by an empty default, time after time.
   */
  lemma {:induction false} EmptyDefaultAlwaysFills(entry: Tree, d: Tree)
    requires Proper(entry) && Proper(d) && Unique(d) && d.IsMapping() && d.content == [] && entry.IsMapping()
    requires Config(entry).None? || Config(entry).value.IsEmpty()
    ensures
      var once := Sync(entry, d);
      once.Edited? && once.changed && Sync(once.tree, d).Edited? && Sync(once.tree, d).changed
  {
    hide Proper, Unique, Find, MergeContent, NullMeetsNull;
    FillEnabledIs(entry);
    FillConfigIs(FillEnabled(entry).tree, d);
    SecondSyncReports(entry, d);
  }
}
