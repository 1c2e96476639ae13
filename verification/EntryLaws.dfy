/**
 What batches of assignments and removals, and syncs, make of a whole plugin entry: said by what its paths resolve to
 before and after, and, for the paths of a batch, at their turn.
 */
module EntryLaws {
  import opened Common
  import opened YamlTree
  import opened YamlLaws
  import opened YamlMerge

  // ---------------------------------------------------------------- an entry and its configuration

  /** A path of the configuration, seen from the entry. */
  function Below(path: Path): Path { [CONFIG] + path }

  /** No configuration at all, or one to edit. */
  predicate Editable(config: Option<Tree>) {
    config.None? || config.value.IsEmpty() || config.value.IsMapping()
  }

  lemma ResolveBelow(entry: Tree, path: Path)
    ensures Resolve(entry, Below(path)) == if Config(entry).Some? then Resolve(Config(entry).value, path) else None
  {
    assert Below(path)[0] == CONFIG && Below(path)[1..] == path;
  }

  lemma CannotCrossBelow(p: Path, q: Path)
    ensures Comparable(Below(p), Below(q)) <==> Comparable(p, q)
  {
    assert Below(p)[1..] == p && Below(q)[1..] == q;
    ComparableTails(Below(p), Below(q));
  }

  /** An entry with another configuration. */
  function WithConfig(entry: Tree, config: Tree): Tree { entry.(content := Put(entry.content, CONFIG, config)) }

  lemma WithConfigHas(entry: Tree, config: Tree, path: Path)
    requires entry.IsMapping() && Even(entry.content)
    ensures Resolve(WithConfig(entry, config), Below(path)) == Resolve(config, path)
    ensures forall key :: key != CONFIG ==> Lookup(WithConfig(entry, config), key) == Lookup(entry, key)
  {
    GetAfterPut(entry.content, CONFIG, config, CONFIG);
    ResolveBelow(WithConfig(entry, config), path);
    forall key | key != CONFIG ensures Lookup(WithConfig(entry, config), key) == Lookup(entry, key) {
      GetAfterPut(entry.content, CONFIG, config, key);
    }
  }

  lemma WithSameConfig(entry: Tree, config: Tree)
    requires Config(entry) == Some(config)
    ensures WithConfig(entry, config) == entry
  {
    assert Put(entry.content, CONFIG, config) == entry.content;
  }

  /** An entry and the mapping made of it agree on every path but the empty one. */
  lemma EnsuredResolves(entry: Tree, path: Path)
    requires EnsureEntry(entry).Some? && path != []
    ensures Resolve(EnsureEntry(entry).value, path) == Resolve(entry, path)
  {
    if entry.IsNull() {
      NothingBelowEmpty(entry, path);
      NothingBelowEmpty(EMPTY_MAP, path);
    }
  }

  lemma EnsuredLooksUp(entry: Tree, key: string)
    requires EnsureEntry(entry).Some?
    ensures Lookup(EnsureEntry(entry).value, key) == Lookup(entry, key)
  {
  }

  /** The configuration as a batch of assignments finds it once it is opened. */
  lemma OpenedResolves(entry: Tree, path: Path)
    requires EnsureEntry(entry).Some? && path != []
    ensures Resolve(Child(EnsureEntry(entry).value, CONFIG), path) == Resolve(entry, Below(path))
  {
    var e := EnsureEntry(entry).value;
    EnsuredResolves(entry, Below(path));
    assert Below(path)[0] == CONFIG && Below(path)[1..] == path;
    ResolveInChild(e, Below(path));
  }

  lemma EditableIsOpened(entry: Tree)
    requires EnsureEntry(entry).Some?
    ensures Child(EnsureEntry(entry).value, CONFIG).IsMapping() <==> Editable(Lookup(entry, CONFIG))
  {
  }

  // ---------------------------------------------------------------- assignments: what a batch leaves

  lemma {:induction false} AssignedEntry(entry: Tree, assignments: seq<Assignment>)
    requires Proper(entry) && EnsureEntry(entry).Some? && Editable(Lookup(entry, CONFIG))
    ensures
      var e := EnsureEntry(entry).value;
      var (config, changed) := SetAll(Child(e, CONFIG), assignments);
      && e.IsMapping() && Even(e.content) && Proper(Child(e, CONFIG)) && Child(e, CONFIG).IsMapping()
      && AssignPaths(entry, assignments) == (WithConfig(e, config), changed)
  {
    EnsureEntryKeepsShape(entry);
    EditableIsOpened(entry);
    ProperChild(EnsureEntry(entry).value, CONFIG);
  }

  lemma AssignNeedsEditable(entry: Tree, assignments: seq<Assignment>)
    requires EnsureEntry(entry).None? || !Editable(Lookup(entry, CONFIG))
    ensures AssignPaths(entry, assignments).1.None?
    ensures AssignPaths(entry, assignments).0 == if EnsureEntry(entry).None? then entry else EnsureEntry(entry).value
  {
    if EnsureEntry(entry).Some? {
      EditableIsOpened(entry);
    }
  }

  /** After a batch each assigned path that none after it crosses resolves to the value assigned to it. */
  lemma {:induction false} AssignedPathResolves(entry: Tree, assignments: seq<Assignment>, i: nat)
    requires Proper(entry) && ProperValues(assignments) && AssignPaths(entry, assignments).1.Some?
    requires i < |assignments|
    requires forall j :: i < j < |assignments| ==> !Comparable(assignments[j].path, assignments[i].path)
    ensures Resolve(AssignPaths(entry, assignments).0, [CONFIG] + assignments[i].path) == Some(assignments[i].value)
  {
    if EnsureEntry(entry).None? || !Editable(Lookup(entry, CONFIG)) {
      AssignNeedsEditable(entry, assignments);
    }
    AssignedEntry(entry, assignments);
    var e := EnsureEntry(entry).value;
    SetAllResolves(Child(e, CONFIG), assignments, i);
    WithConfigHas(e, SetAll(Child(e, CONFIG), assignments).0, assignments[i].path);
  }

  /** A batch, even a failing one, leaves every configuration path as it was that none of its own crosses. */
  lemma {:induction false} AssignKeepsOthers(entry: Tree, assignments: seq<Assignment>, q: Path)
    requires Proper(entry) && ProperValues(assignments) && q != []
    requires forall a :: a in assignments ==> !Comparable(a.path, q)
    ensures Resolve(AssignPaths(entry, assignments).0, [CONFIG] + q) == Resolve(entry, [CONFIG] + q)
  {
    if EnsureEntry(entry).None? || !Editable(Lookup(entry, CONFIG)) {
      AssignNeedsEditable(entry, assignments);
      if EnsureEntry(entry).Some? {
        EnsuredResolves(entry, Below(q));
      }
    } else {
      AssignedEntry(entry, assignments);
      var e := EnsureEntry(entry).value;
      SetAllKeepsOthers(Child(e, CONFIG), assignments, q);
      OpenedResolves(entry, q);
      WithConfigHas(e, SetAll(Child(e, CONFIG), assignments).0, q);
    }
  }

  /** And every key of the entry other than the configuration. */
  lemma {:induction false} AssignKeepsKeys(entry: Tree, assignments: seq<Assignment>, key: string)
    requires Proper(entry) && key != CONFIG
    ensures Lookup(AssignPaths(entry, assignments).0, key) == Lookup(entry, key)
  {
    if EnsureEntry(entry).None? || !Editable(Lookup(entry, CONFIG)) {
      AssignNeedsEditable(entry, assignments);
    } else {
      AssignedEntry(entry, assignments);
      var e := EnsureEntry(entry).value;
      WithConfigHas(e, SetAll(Child(e, CONFIG), assignments).0, []);
    }
    if EnsureEntry(entry).Some? {
      EnsuredLooksUp(entry, key);
    }
  }

  /** The keys of the entry keep their nodes and their places. */
  lemma {:induction false} AssignKeepsOrder(entry: Tree, assignments: seq<Assignment>, i: nat)
    requires Proper(entry) && entry.IsMapping() && i < |entry.content| && i % 2 == 0
    ensures
      var after := AssignPaths(entry, assignments).0;
      i < |after.content| && after.content[i] == entry.content[i]
  {
    if Editable(Lookup(entry, CONFIG)) {
      AssignedEntry(entry, assignments);
      PlaceKeepsKeys(entry.content, Scalar(CONFIG), SetAll(Child(entry, CONFIG), assignments).0, i);
    } else {
      AssignNeedsEditable(entry, assignments);
    }
  }

  // ---------------------------------------------------------------- assignments at their turn

  /** An assignment of a batch to a configuration, at its turn, finds something else at its path. */
  ghost predicate SetsAnew(config: Tree, assignments: seq<Assignment>, i: nat)
    requires i < |assignments|
  {
    Resolve(SetAll(config, assignments[..i]).0, assignments[i].path) != Some(assignments[i].value)
  }

  /** An assignment of a batch to a configuration has, at its turn, a clear way. */
  ghost predicate CanSet(config: Tree, assignments: seq<Assignment>, i: nat)
    requires i < |assignments|
  {
    assignments[i].path != [] && ClearWay(SetAll(config, assignments[..i]).0, assignments[i].path)
  }

  /** Behind the first assignment the batch goes on with what that one left. */
  lemma TurnsAfterFirst(config: Tree, assignments: seq<Assignment>, i: nat)
    requires 0 < i < |assignments| && assignments[0].path != []
    requires SetPath(config, assignments[0].path, assignments[0].value).Edited?
    ensures
      var first := SetPath(config, assignments[0].path, assignments[0].value).tree;
      && (SetsAnew(config, assignments, i) <==> SetsAnew(first, assignments[1..], i - 1))
      && (CanSet(config, assignments, i) <==> CanSet(first, assignments[1..], i - 1))
  {
    assert assignments[..i][1..] == assignments[1..][..i - 1] && assignments[..i][0] == assignments[0];
  }

  lemma {:induction false} BatchSucceedsIff(config: Tree, assignments: seq<Assignment>)
    requires config.IsMapping() && Proper(config) && ProperValues(assignments)
    ensures SetAll(config, assignments).1.Some? <==>
              forall i: nat :: i < |assignments| ==> CanSet(config, assignments, i)
    decreases |assignments|
  {
    hide ClearWay, SetPath;
    if assignments != [] {
      var a := assignments[0];
      assert assignments[..0] == [];
      assert CanSet(config, assignments, 0) <==> a.path != [] && ClearWay(config, a.path);
      if CanSet(config, assignments, 0) {
        SetSucceedsIff(config, a.path, a.value);
        SetKeepsShape(config, a.path, a.value);
        var first, rest := SetPath(config, a.path, a.value).tree, assignments[1..];
        BatchSucceedsIff(first, rest);
        forall i: nat | 0 < i < |assignments| ensures CanSet(config, assignments, i) <==> CanSet(first, rest, i - 1) {
          TurnsAfterFirst(config, assignments, i);
        }
        if forall i: nat :: i < |assignments| ==> CanSet(config, assignments, i) {
          forall i: nat | i < |rest| ensures CanSet(first, rest, i) {
            assert CanSet(config, assignments, i + 1);
          }
        }
      } else if a.path != [] {
        SetSucceedsIff(config, a.path, a.value);
      }
    }
  }

  lemma {:induction false} BatchReportsIff(config: Tree, assignments: seq<Assignment>)
    requires Proper(config) && ProperValues(assignments) && SetAll(config, assignments).1.Some?
    ensures SetAll(config, assignments).1.value <==>
              exists i: nat :: i < |assignments| && SetsAnew(config, assignments, i)
    ensures !SetAll(config, assignments).1.value ==> SetAll(config, assignments).0 == config
    decreases |assignments|
  {
    hide SetPath;
    if assignments != [] {
      var a := assignments[0];
      var first, rest := SetPath(config, a.path, a.value).tree, assignments[1..];
      assert assignments[..0] == [];
      SetKeepsShape(config, a.path, a.value);
      SetChangedIff(config, a.path, a.value);
      assert SetsAnew(config, assignments, 0) <==> SetPath(config, a.path, a.value).changed;
      BatchReportsIff(first, rest);
      forall i: nat | 0 < i < |assignments| ensures SetsAnew(config, assignments, i) <==> SetsAnew(first, rest, i - 1) {
        TurnsAfterFirst(config, assignments, i);
      }
      if i: nat :| i < |rest| && SetsAnew(first, rest, i) {
        assert SetsAnew(config, assignments, i + 1);
      }
    }
  }

  /** An assignment of a batch, at its turn, finds its path resolving to something else than its value. */
  ghost predicate AssignsAnew(entry: Tree, assignments: seq<Assignment>, i: nat)
    requires i < |assignments|
  {
    Resolve(AssignPaths(entry, assignments[..i]).0, [CONFIG] + assignments[i].path) != Some(assignments[i].value)
  }

  /** An assignment of a batch has a path, and at its turn no node on the way to it, short of its end, blocks. */
  ghost predicate CanAssign(entry: Tree, assignments: seq<Assignment>, i: nat)
    requires i < |assignments|
  {
    assignments[i].path != [] && ClearWay(AssignPaths(entry, assignments[..i]).0, [CONFIG] + assignments[i].path)
  }

  /** The turns of a batch seen from the entry and from its configuration. */
  lemma {:induction false} TurnsBelow(entry: Tree, assignments: seq<Assignment>, i: nat)
    requires Proper(entry) && ProperValues(assignments) && i < |assignments|
    requires EnsureEntry(entry).Some? && Editable(Lookup(entry, CONFIG))
    ensures
      var config := Child(EnsureEntry(entry).value, CONFIG);
      && (AssignsAnew(entry, assignments, i) <==> SetsAnew(config, assignments, i))
      && (CanAssign(entry, assignments, i) <==> CanSet(config, assignments, i))
  {
    hide ClearWay;
    var e, a := EnsureEntry(entry).value, assignments[i];
    var config := Child(e, CONFIG);
    AssignedEntry(entry, assignments[..i]);
    var turn := SetAll(config, assignments[..i]).0;
    WithConfigHas(e, turn, a.path);
    WithConfigHas(e, turn, []);
    ResolveBelow(WithConfig(e, turn), []);
    if a.path != [] {
      assert [CONFIG] + a.path == Below(a.path);
      SetAllKeepsShape(config, assignments[..i]);
      ClearWayBelow(WithConfig(e, turn), turn, a.path);
    }
  }

  lemma {:induction false} SetAllKeepsShape(config: Tree, assignments: seq<Assignment>)
    requires config.IsMapping() && Proper(config) && ProperValues(assignments)
    ensures Proper(SetAll(config, assignments).0) && SetAll(config, assignments).0.IsMapping()
    decreases |assignments|
  {
    if assignments != [] && assignments[0].path != [] {
      var a := assignments[0];
      if SetPath(config, a.path, a.value).Edited? {
        SetKeepsShape(config, a.path, a.value);
        SetAllKeepsShape(SetPath(config, a.path, a.value).tree, assignments[1..]);
      }
    }
  }

  lemma ClearWayBelow(entry: Tree, config: Tree, path: Path)
    requires Resolve(entry, Below([])) == Some(config) && config.IsMapping() && path != []
    ensures ClearWay(entry, Below(path)) <==> ClearWay(config, path)
  {
    hide ClearWay;
    var whole := Below(path);
    assert whole[1..] == path && whole[..1] == Below([]) && whole[0] == CONFIG;
    ClearWayStep(entry, whole);
    ResolveBelow(entry, []);
    if config.IsEmpty() {
      EmptyIsClear(config, path);
      EmptyMapIsClear(path);
    }
  }

  lemma EmptyIsClear(t: Tree, path: Path)
    requires t.IsEmpty()
    ensures ClearWay(t, path)
  {
    forall i | 0 < i < |path| ensures Passable(t, path[..i]) {
      NothingBelowEmpty(t, path[..i]);
    }
  }

  /**
   A batch succeeds exactly when the entry is null or a mapping, its configuration is missing, empty or a mapping, and
   each assignment has a path with, at its turn, nothing blocking the way.
   */
  lemma {:induction false} AssignSucceedsIff(entry: Tree, assignments: seq<Assignment>)
    requires Proper(entry) && ProperValues(assignments)
    ensures AssignPaths(entry, assignments).1.Some? <==>
              && (entry.IsNull() || entry.IsMapping())
              && Editable(Lookup(entry, CONFIG))
              && forall i: nat :: i < |assignments| ==> CanAssign(entry, assignments, i)
  {
    hide CanAssign, CanSet, SetAll;
    if EnsureEntry(entry).None? || !Editable(Lookup(entry, CONFIG)) {
      AssignNeedsEditable(entry, assignments);
    } else {
      var config := Child(EnsureEntry(entry).value, CONFIG);
      AssignedEntry(entry, assignments);
      BatchSucceedsIff(config, assignments);
      forall i: nat | i < |assignments|
        ensures CanAssign(entry, assignments, i) <==> CanSet(config, assignments, i)
      {
        TurnsBelow(entry, assignments, i);
      }
    }
  }

  /** A change is reported exactly when some path, at its turn, resolved to something else. */
  lemma {:induction false} AssignReportsIff(entry: Tree, assignments: seq<Assignment>)
    requires Proper(entry) && ProperValues(assignments) && AssignPaths(entry, assignments).1.Some?
    ensures AssignPaths(entry, assignments).1.value <==>
              exists i: nat :: i < |assignments| && AssignsAnew(entry, assignments, i)
  {
    hide AssignsAnew, SetsAnew, SetAll;
    if EnsureEntry(entry).None? || !Editable(Lookup(entry, CONFIG)) {
      AssignNeedsEditable(entry, assignments);
    }
    var config := Child(EnsureEntry(entry).value, CONFIG);
    AssignedEntry(entry, assignments);
    BatchReportsIff(config, assignments);
    forall i: nat | i < |assignments|
      ensures AssignsAnew(entry, assignments, i) <==> SetsAnew(config, assignments, i)
    {
      TurnsBelow(entry, assignments, i);
    }
  }

  /**
   A batch that reports no change has left the entry as it was, exactly unless it was empty and the configuration was
   not a mapping to begin with: that is opened all the same, without a report.
   */
  lemma {:induction false} QuietAssignChangesNothingIff(entry: Tree, assignments: seq<Assignment>)
    requires Proper(entry) && ProperValues(assignments) && AssignPaths(entry, assignments).1 == Some(false)
    ensures AssignPaths(entry, assignments).0 == entry <==>
              || assignments != []
              || (Lookup(entry, CONFIG).Some? && Lookup(entry, CONFIG).value.IsMapping()
                  && (Lookup(entry, CONFIG).value.content != [] || Lookup(entry, CONFIG).value == EMPTY_MAP))
  {
    if EnsureEntry(entry).None? || !Editable(Lookup(entry, CONFIG)) {
      AssignNeedsEditable(entry, assignments);
    }
    var e := EnsureEntry(entry).value;
    var config := Child(e, CONFIG);
    AssignedEntry(entry, assignments);
    BatchReportsIff(config, assignments);
    WithConfigHas(e, config, []);
    ResolveBelow(WithConfig(e, config), []);
    if assignments != [] {
      FirstIsQuiet(config, assignments);
      OpenedResolves(entry, assignments[0].path);
    }
    if Config(entry) == Some(config) {
      WithSameConfig(entry, config);
    }
  }

  lemma {:induction false} FirstIsQuiet(config: Tree, assignments: seq<Assignment>)
    requires Proper(config) && ProperValues(assignments) && assignments != []
    requires SetAll(config, assignments).1 == Some(false)
    ensures assignments[0].path != [] && Resolve(config, assignments[0].path).Some? && !config.IsEmpty()
  {
    SetChangedIff(config, assignments[0].path, assignments[0].value);
    if config.IsEmpty() {
      NothingBelowEmpty(config, assignments[0].path);
    }
  }

  /** The report is about the turns: a batch can take its own change back and report it nevertheless. */
  lemma ReportedChangesCanCancelOut(key: string, v: Tree, w: Tree)
    requires v != w
    ensures
      var config := Tree(MappingNode, "!!map", "", [Scalar(key), v]);
      var entry := Tree(MappingNode, "!!map", "", [Scalar(CONFIG), config]);
      AssignPaths(entry, [Assignment([key], w), Assignment([key], v)]) == (entry, Some(true))
  {
    var config := Tree(MappingNode, "!!map", "", [Scalar(key), v]);
    var between := Tree(MappingNode, "!!map", "", [Scalar(key), w]);
    var entry := Tree(MappingNode, "!!map", "", [Scalar(CONFIG), config]);
    var there, back := Assignment([key], w), Assignment([key], v);
    assert SetPath(config, [key], w) == Edited(between, true);
    assert SetPath(between, [key], v) == Edited(config, true);
    assert [there, back][1..] == [back] && [back][1..] == [];
    assert SetAll(between, [back]) == (config, Some(true));
    assert SetAll(config, [there, back]) == (config, Some(true));
    assert Config(entry) == Some(config);
    WithSameConfig(entry, config);
  }

  // ---------------------------------------------------------------- removals: what a batch leaves

  /** There is a configuration to remove from. */
  predicate Configured(entry: Tree) {
    Config(entry).Some? && !Config(entry).value.IsEmpty() && Config(entry).value.IsMapping()
  }

  lemma {:induction false} ResetEntry(entry: Tree, paths: seq<Path>)
    requires Proper(entry) && Configured(entry)
    ensures
      var (config, removed) := RemoveAll(Config(entry).value, paths);
      && entry.IsMapping() && Even(entry.content) && Proper(Config(entry).value)
      && ResetPaths(entry, paths) == (WithConfig(entry, config), removed)
  {
    ChildOf(entry, CONFIG);
  }

  lemma ResetOfNothing(entry: Tree, paths: seq<Path>)
    requires !Configured(entry)
    ensures ResetPaths(entry, paths) ==
              if entry.IsNull() then (EMPTY_MAP, Some(0))
              else (entry, if entry.IsMapping() && Editable(Lookup(entry, CONFIG)) then Some(0) else None)
  {
  }

  /** After a batch of removals no path of it resolves. */
  lemma {:induction false} ResetPathIsGone(entry: Tree, paths: seq<Path>, q: Path)
    requires Proper(entry) && Unique(entry) && ResetPaths(entry, paths).1.Some? && q in paths && q != []
    ensures Resolve(ResetPaths(entry, paths).0, [CONFIG] + q) == None
  {
    if Configured(entry) {
      ResetEntry(entry, paths);
      ChildOf(entry, CONFIG);
      RemoveAllClears(Config(entry).value, paths, q);
      WithConfigHas(entry, RemoveAll(Config(entry).value, paths).0, q);
    } else {
      ResetOfNothing(entry, paths);
      ResolveBelow(entry, q);
      ResolveBelow(EMPTY_MAP, q);
      if Config(entry).Some? && Config(entry).value.IsEmpty() {
        NothingBelowEmpty(Config(entry).value, q);
      }
    }
  }

  lemma {:induction false} RemoveAllKeepsOthers(config: Tree, paths: seq<Path>, q: Path)
    requires Proper(config) && Unique(config)
    requires forall p :: p in paths ==> !Comparable(p, q)
    ensures Resolve(RemoveAll(config, paths).0, q) == Resolve(config, q)
    decreases |paths|
  {
    if paths != [] && paths[0] != [] && RemovePath(config, paths[0]).Edited? {
      RemoveKeepsShape(config, paths[0]);
      RemoveKeepsUnique(config, paths[0]);
      RemoveKeepsOthers(config, paths[0], q);
      RemoveAllKeepsOthers(RemovePath(config, paths[0]).tree, paths[1..], q);
    }
  }

  /** A batch, even a failing one, leaves every configuration path as it was that none of its own crosses. */
  lemma {:induction false} ResetKeepsOthers(entry: Tree, paths: seq<Path>, q: Path)
    requires Proper(entry) && Unique(entry)
    requires forall p :: p in paths ==> !Comparable(p, q)
    ensures Resolve(ResetPaths(entry, paths).0, [CONFIG] + q) == Resolve(entry, [CONFIG] + q)
  {
    assert [CONFIG] + q == Below(q);
    if Configured(entry) {
      ResetEntry(entry, paths);
      ChildOf(entry, CONFIG);
      RemoveAllKeepsOthers(Config(entry).value, paths, q);
      WithConfigHas(entry, RemoveAll(Config(entry).value, paths).0, q);
      ResolveBelow(entry, q);
    } else {
      ResetOfNothing(entry, paths);
      ResolveBelow(entry, q);
      ResolveBelow(EMPTY_MAP, q);
    }
  }

  /** And every key of the entry other than the configuration. */
  lemma {:induction false} ResetKeepsKeys(entry: Tree, paths: seq<Path>, key: string)
    requires Proper(entry) && key != CONFIG
    ensures Lookup(ResetPaths(entry, paths).0, key) == Lookup(entry, key)
  {
    if Configured(entry) {
      ResetEntry(entry, paths);
      WithConfigHas(entry, RemoveAll(Config(entry).value, paths).0, []);
    } else {
      ResetOfNothing(entry, paths);
    }
  }

  // ---------------------------------------------------------------- removals at their turn

  /** A removal of a batch from a configuration, at its turn, finds its path. */
  ghost predicate Finds(config: Tree, paths: seq<Path>, i: nat)
    requires i < |paths|
  {
    Resolve(RemoveAll(config, paths[..i]).0, paths[i]).Some?
  }

  /** A removal of a batch from a configuration has, at its turn, a clear way. */
  ghost predicate CanRemove(config: Tree, paths: seq<Path>, i: nat)
    requires i < |paths|
  {
    paths[i] != [] && ClearWay(RemoveAll(config, paths[..i]).0, paths[i])
  }

  /** Behind the first removal the batch goes on with what that one left. */
  lemma RemovalsAfterFirst(config: Tree, paths: seq<Path>, i: nat)
    requires 0 < i < |paths| && paths[0] != [] && RemovePath(config, paths[0]).Edited?
    ensures
      var first := RemovePath(config, paths[0]).tree;
      && (Finds(config, paths, i) <==> Finds(first, paths[1..], i - 1))
      && (CanRemove(config, paths, i) <==> CanRemove(first, paths[1..], i - 1))
  {
    assert paths[..i][1..] == paths[1..][..i - 1] && paths[..i][0] == paths[0];
  }

  lemma {:induction false} RemovalsSucceedIff(config: Tree, paths: seq<Path>)
    requires config.IsMapping() && Proper(config)
    ensures RemoveAll(config, paths).1.Some? <==> forall i: nat :: i < |paths| ==> CanRemove(config, paths, i)
    decreases |paths|
  {
    hide ClearWay, RemovePath;
    if paths != [] {
      assert paths[..0] == [];
      assert CanRemove(config, paths, 0) <==> paths[0] != [] && ClearWay(config, paths[0]);
      if CanRemove(config, paths, 0) {
        RemoveSucceedsIff(config, paths[0]);
        RemoveKeepsShape(config, paths[0]);
        var first, rest := RemovePath(config, paths[0]).tree, paths[1..];
        RemovalsSucceedIff(first, rest);
        forall i: nat | 0 < i < |paths| ensures CanRemove(config, paths, i) <==> CanRemove(first, rest, i - 1) {
          RemovalsAfterFirst(config, paths, i);
        }
        if forall i: nat :: i < |paths| ==> CanRemove(config, paths, i) {
          forall i: nat | i < |rest| ensures CanRemove(first, rest, i) {
            assert CanRemove(config, paths, i + 1);
          }
        }
      } else if paths[0] != [] {
        RemoveSucceedsIff(config, paths[0]);
      }
    }
  }

  ghost function FoundTurns(config: Tree, paths: seq<Path>): set<nat> {
    set i: nat | i < |paths| && Finds(config, paths, i)
  }

  lemma ShiftedTurns(a: set<nat>, b: set<nat>, zero: bool)
    requires forall i: nat :: i in b <==> if i == 0 then zero else i - 1 in a
    ensures |b| == |a| + if zero then 1 else 0
    decreases a
  {
    if a == {} {
      assert b == if zero then {0} else {};
    } else {
      var x: nat :| x in a;
      assert x + 1 in b;
      ShiftedTurns(a - {x}, b - {x + 1}, zero);
    }
  }

  lemma {:induction false} RemovalsAreCounted(config: Tree, paths: seq<Path>)
    requires RemoveAll(config, paths).1.Some?
    ensures RemoveAll(config, paths).1.value == |FoundTurns(config, paths)|
    ensures RemoveAll(config, paths).1.value == 0 ==> RemoveAll(config, paths).0 == config
    decreases |paths|
  {
    if paths == [] {
      assert FoundTurns(config, paths) == {};
    } else {
      var first, rest := RemovePath(config, paths[0]).tree, paths[1..];
      assert paths[..0] == [];
      RemovedIff(config, paths[0]);
      RemovalsAreCounted(first, rest);
      forall i: nat ensures i in FoundTurns(config, paths) <==>
                              if i == 0 then RemovePath(config, paths[0]).changed else i - 1 in FoundTurns(first, rest)
      {
        if 0 < i < |paths| {
          RemovalsAfterFirst(config, paths, i);
        }
      }
      ShiftedTurns(FoundTurns(first, rest), FoundTurns(config, paths), RemovePath(config, paths[0]).changed);
    }
  }

  /** A removal of a batch, at its turn, finds something at its path. */
  ghost predicate ResetFinds(entry: Tree, paths: seq<Path>, i: nat)
    requires i < |paths|
  {
    paths[i] != [] && Resolve(ResetPaths(entry, paths[..i]).0, [CONFIG] + paths[i]).Some?
  }

  /** A removal of a batch has a path, and at its turn no node on the way to it, short of its end, blocks. */
  ghost predicate CanReset(entry: Tree, paths: seq<Path>, i: nat)
    requires i < |paths|
  {
    paths[i] != [] && ClearWay(ResetPaths(entry, paths[..i]).0, [CONFIG] + paths[i])
  }

  /** The turns of a batch seen from the entry and from its configuration. */
  lemma {:induction false} RemovalTurnsBelow(entry: Tree, paths: seq<Path>, i: nat)
    requires Proper(entry) && Configured(entry) && i < |paths| && paths[i] != []
    ensures ResetFinds(entry, paths, i) <==> Finds(Config(entry).value, paths, i)
    ensures CanReset(entry, paths, i) <==> CanRemove(Config(entry).value, paths, i)
  {
    hide ClearWay;
    ResetEntry(entry, paths[..i]);
    var config := Config(entry).value;
    var turn := RemoveAll(config, paths[..i]).0;
    assert [CONFIG] + paths[i] == Below(paths[i]);
    WithConfigHas(entry, turn, paths[i]);
    WithConfigHas(entry, turn, []);
    RemoveAllKeepsMapping(config, paths[..i]);
    ClearWayBelow(WithConfig(entry, turn), turn, paths[i]);
  }

  lemma {:induction false} RemoveAllKeepsMapping(config: Tree, paths: seq<Path>)
    requires config.IsMapping()
    ensures RemoveAll(config, paths).0.IsMapping()
    decreases |paths|
  {
    if paths != [] && paths[0] != [] && RemovePath(config, paths[0]).Edited? {
      RemoveKeepsMapping(config, paths[0]);
      RemoveAllKeepsMapping(RemovePath(config, paths[0]).tree, paths[1..]);
    }
  }

  /**
   A batch of removals succeeds exactly when the entry is null or a mapping and either there is nothing to remove from,
   or the configuration is a mapping and each removal has a path with, at its turn, nothing blocking the way.
   */
  lemma {:induction false} ResetSucceedsIff(entry: Tree, paths: seq<Path>)
    requires Proper(entry)
    ensures
      var config := Lookup(entry, CONFIG);
      ResetPaths(entry, paths).1.Some? <==>
        && (entry.IsNull() || entry.IsMapping())
        && (|| config.None? || config.value.IsEmpty()
            || (config.value.IsMapping() && forall i: nat :: i < |paths| ==> CanReset(entry, paths, i)))
  {
    hide CanReset, CanRemove, RemoveAll;
    if Configured(entry) {
      ResetEntry(entry, paths);
      RemovalsSucceedIff(Config(entry).value, paths);
      forall i: nat | i < |paths|
        ensures CanReset(entry, paths, i) <==> CanRemove(Config(entry).value, paths, i)
      {
        if paths[i] == [] {
          NoPathNoTurn(entry, paths, i);
        } else {
          RemovalTurnsBelow(entry, paths, i);
        }
      }
    } else {
      ResetOfNothing(entry, paths);
    }
  }

  lemma NoPathNoTurn(entry: Tree, paths: seq<Path>, i: nat)
    requires i < |paths| && paths[i] == []
    ensures !CanReset(entry, paths, i) && forall config :: !CanRemove(config, paths, i)
  {
  }

  /** The count of a batch of removals is how many of them, at their turn, found something at their path. */
  lemma {:induction false} ResetCounts(entry: Tree, paths: seq<Path>)
    requires Proper(entry) && ResetPaths(entry, paths).1.Some?
    ensures ResetPaths(entry, paths).1.value == |set i: nat | i < |paths| && ResetFinds(entry, paths, i)|
  {
    hide ClearWay;
    var found := set i: nat | i < |paths| && ResetFinds(entry, paths, i);
    if Configured(entry) {
      ResetEntry(entry, paths);
      ChildOf(entry, CONFIG);
      RemovalsSucceedIff(Config(entry).value, paths);
      RemovalsAreCounted(Config(entry).value, paths);
      forall i: nat | i < |paths| ensures ResetFinds(entry, paths, i) <==> Finds(Config(entry).value, paths, i) {
        assert CanRemove(Config(entry).value, paths, i);
        RemovalTurnsBelow(entry, paths, i);
      }
      assert found == FoundTurns(Config(entry).value, paths);
    } else {
      ResetOfNothing(entry, paths);
      forall i: nat | i < |paths| ensures !ResetFinds(entry, paths, i) {
        ResetOfNothing(entry, paths[..i]);
        ResolveBelow(entry, paths[i]);
        ResolveBelow(EMPTY_MAP, paths[i]);
        if Config(entry).Some? && Config(entry).value.IsEmpty() && paths[i] != [] {
          NothingBelowEmpty(Config(entry).value, paths[i]);
        }
      }
      assert found == {};
    }
  }

  /** A batch that counts nothing has changed nothing, but for a null entry becoming an empty mapping. */
  lemma {:induction false} QuietResetChangesNothing(entry: Tree, paths: seq<Path>)
    requires Proper(entry) && ResetPaths(entry, paths).1 == Some(0)
    ensures ResetPaths(entry, paths).0 == if entry.IsNull() then EMPTY_MAP else entry
  {
    if Configured(entry) {
      ResetEntry(entry, paths);
      RemovalsAreCounted(Config(entry).value, paths);
      WithSameConfig(entry, Config(entry).value);
    } else {
      ResetOfNothing(entry, paths);
    }
  }

  // ---------------------------------------------------------------- completing an entry

  /** The literal node of `true`. */
  const TRUE_NODE := Tree(ScalarNode, "!!bool", "true", [])

  /**
   Filling `enabled` in gives it `true` where it was missing or null and leaves it as it was otherwise; a missing one is
   put before everything else, and no other key changes.
   */
  lemma {:induction false} FillEnabledExactly(entry: Tree, key: string)
    requires Proper(entry)
    ensures
      var was := Lookup(entry, "enabled");
      var filled := FillEnabled(entry);
      && (filled.Edited? <==> entry.IsNull() || entry.IsMapping())
      && (filled.Edited? ==>
            && (filled.changed <==> was.None? || was.value.IsNull())
            && Lookup(filled.tree, "enabled") == (if was.None? || was.value.IsNull() then Some(TRUE_NODE) else was)
            && (key != "enabled" ==> Lookup(filled.tree, key) == Lookup(entry, key))
            && (was.None? ==>
                  filled.tree.content == [Tree(ScalarNode, "!!str", "enabled", []), TRUE_NODE]
                                         + (if entry.IsNull() then [] else entry.content)))
  {
    if EnsureEntry(entry).Some? {
      EnsureEntryKeepsShape(entry);
      var e := EnsureEntry(entry).value;
      GetAfterPrepend(e.content, Scalar(ENABLED), Bool(true), ENABLED);
      GetAfterPrepend(e.content, Scalar(ENABLED), Bool(true), key);
      GetAfterPut(e.content, ENABLED, Bool(true), ENABLED);
      GetAfterPut(e.content, ENABLED, Bool(true), key);
    }
  }

  lemma {:induction false} FillConfigKeepsKeys(entry: Tree, d: Tree, key: string)
    requires Proper(entry) && key != CONFIG && FillConfig(entry, d).Edited?
    ensures Lookup(FillConfig(entry, d).tree, key) == Lookup(entry, key)
  {
    hide MergeContent;
    EnsureEntryKeepsShape(entry);
    var e := EnsureEntry(entry).value;
    WithConfigHas(e, d, []);
    if Config(e).Some? {
      WithConfigHas(e, Merge(Config(e).value, d).0, []);
    }
  }

  /** A sync completes `enabled` and the configuration and changes no other key. */
  lemma {:induction false} SyncKeepsKeys(entry: Tree, d: Tree, key: string)
    requires Proper(entry) && Proper(d) && Unique(d) && d.kind != Zero && Sync(entry, d).Edited?
    ensures
      var was := Lookup(entry, "enabled");
      && Lookup(Sync(entry, d).tree, "enabled") == (if was.None? || was.value.IsNull() then Some(TRUE_NODE) else was)
      && (key != "enabled" && key != "config" ==> Lookup(Sync(entry, d).tree, key) == Lookup(entry, key))
  {
    assert ENABLED != CONFIG by { assert |ENABLED| != |CONFIG|; }
    FillEnabledIs(entry);
    FillEnabledExactly(entry, key);
    var e := FillEnabled(entry).tree;
    FillConfigIs(e, d);
    if key != "config" {
      FillConfigKeepsKeys(e, d, key);
    }
  }

  /** What a sync makes of the configuration, before and after. */
  lemma {:induction false} SyncedConfig(entry: Tree, d: Tree)
    requires Proper(entry) && Proper(d) && Unique(d) && d.kind != Zero && Sync(entry, d).Edited?
    ensures
      var config := Config(entry);
      Config(Sync(entry, d).tree) == Some(
        if config.None? || config.value.IsEmpty() then d
        else if config.value.IsMapping() && d.IsMapping() then Merge(config.value, d).0
        else config.value)
  {
    FillEnabledIs(entry);
    FillConfigIs(FillEnabled(entry).tree, d);
  }

  /** What the user configured, neither null nor a mapping, comes through every sync, scalar configurations included. */
  lemma {:induction false} SyncKeepsUserValues(entry: Tree, d: Tree, path: Path)
    requires Proper(entry) && Proper(d) && Unique(d) && d.kind != Zero && Sync(entry, d).Edited?
    requires IsUserValue(Resolve(entry, [CONFIG] + path))
    ensures Resolve(Sync(entry, d).tree, [CONFIG] + path) == Resolve(entry, [CONFIG] + path)
  {
    hide MergeContent, Proper, Unique;
    assert [CONFIG] + path == Below(path);
    ResolveBelow(entry, path);
    ResolveBelow(Sync(entry, d).tree, path);
    SyncedConfig(entry, d);
    var config := Config(entry).value;
    ChildOf(entry, CONFIG);
    if config.IsEmpty() {
      if path != [] {
        NothingBelowEmpty(config, path);
      }
    } else if config.IsMapping() && d.IsMapping() {
      MergeKeepsUserValues(config, d, path);
    }
  }

  /** A default that nothing blocks, and where the entry has nothing or null, is there after a sync as it is. */
  lemma {:induction false} SyncFillsIn(entry: Tree, d: Tree, path: Path)
    requires Proper(entry) && Proper(d) && Unique(d) && d.kind != Zero && Sync(entry, d).Edited?
    requires Resolve(d, path).Some? && OpenWay(entry, [CONFIG] + path)
    requires Resolve(entry, [CONFIG] + path).None? || Resolve(entry, [CONFIG] + path).value.IsNull()
    ensures Resolve(Sync(entry, d).tree, [CONFIG] + path) == Resolve(d, path)
  {
    hide MergeContent, Proper, Unique, OpenWay;
    assert [CONFIG] + path == Below(path);
    ResolveBelow(entry, path);
    ResolveBelow(Sync(entry, d).tree, path);
    SyncedConfig(entry, d);
    if Config(entry).Some? && !Config(entry).value.IsEmpty() {
      assert path != [];
      OpenWayStep(entry, Below(path));
      assert Below(path)[1..] == path && Below(path)[0] == CONFIG;
      ChildOf(entry, CONFIG);
      ResolveStep(d, path);
      MergeFillsIn(Config(entry).value, d, path);
    }
  }

  /**
   A sync reports a change exactly when `enabled` was missing or null, or the configuration missing or empty, or some
   path of the defaults was filled into it.
   */
  lemma {:induction false} SyncReportsIff(entry: Tree, d: Tree)
    requires Proper(entry) && Proper(d) && Unique(d) && d.kind != Zero && Sync(entry, d).Edited?
    ensures
      var enabled, config := Lookup(entry, "enabled"), Lookup(entry, "config");
      Sync(entry, d).changed <==>
        || enabled.None? || enabled.value.IsNull()
        || config.None? || config.value.IsEmpty()
        || (config.value.IsMapping() && d.IsMapping() && exists path :: FilledAt(config.value, d, path))
  {
    hide MergeContent, Proper, Unique, FilledAt;
    FillEnabledIs(entry);
    FillEnabledExactly(entry, ENABLED);
    var e := FillEnabled(entry).tree;
    if Config(e).Some? && !Config(e).value.IsEmpty() && Config(e).value.IsMapping() && d.IsMapping() {
      ChildOf(e, CONFIG);
      MergeReportsIff(Config(e).value, d);
    }
  }
}
