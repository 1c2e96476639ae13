/**
 Plugin entries edited in place: completing them from defaults, and setting and resetting configuration paths.  Each
 method shows on the entry's nodes exactly what the function of the same step makes of the tree that the entry shows,
 errors included; the laws about whole entries are proved of those functions, and so hold of what the methods leave.
 */
module PluginEntry {
  import opened Common
  import opened YamlTree
  import opened YamlNode
  import opened YamlEdit

  /** Turns a null entry into an empty mapping, and reports whether the entry is a mapping then. */
  method EnsurePluginEntryMapping(entry: Node) returns (ok: bool)
    requires entry.Valid()
    modifies entry
    ensures entry.Valid() && entry.Repr == old(entry.Repr)
    ensures match EnsureEntry(old(entry.view))
            case None => !ok && entry.view == old(entry.view)
            case Some(e) => ok && entry.view == e
  {
    NodeShows(entry);
    if entry.kind == ScalarNode && entry.tag == "!!null" {
      entry.kind, entry.tag, entry.value := MappingNode, "!!map", "";
      entry.Link([], {}, []);
      return true;
    }
    return entry.kind == MappingNode;
  }

  method FillMissingPluginEnabled(entry: Node) returns (outcome: Outcome)
    requires entry.Valid()
    modifies entry.Repr
    ensures Grown(entry)
    ensures match FillEnabled(old(entry.view))
            case Failed => outcome == Error && entry.view == old(entry.view)
            case Edited(tree, changed) => outcome == Done(changed) && entry.view == tree
  {
    hide Node.Valid;
    var ok := EnsurePluginEntryMapping(entry);
    if !ok {
      return Error;
    }
    var enabled, at := MappingValue(entry, ENABLED);
    if enabled == null {
      var key := NewScalar(ENABLED);
      var value := NewBool(true);
      entry.PrependEntry(key, value);
      return Done(true);
    }
    NodeShows(enabled);
    if enabled.kind == ScalarNode && enabled.tag == "!!null" {
      var value := NewBool(true);
      OverwriteValue(entry, enabled, at, value);
      return Done(true);
    }
    return Done(false);
  }

  /** Completes the configuration from the defaults, which stay as they are and share no node with it. */
  method FillPluginConfigDefaults(entry: Node, defaults: Node) returns (outcome: Outcome)
    requires entry.Valid() && defaults.Valid() && entry.Repr !! defaults.Repr
    modifies entry.Repr
    ensures Grown(entry)
    ensures match FillConfig(old(entry.view), defaults.view)
            case Failed => outcome == Error && entry.view == old(entry.view)
            case Edited(tree, changed) => outcome == Done(changed) && entry.view == tree
  {
    hide Node.Valid;
    var ok := EnsurePluginEntryMapping(entry);
    if !ok {
      return Error;
    }
    var config, at := MappingValue(entry, CONFIG);
    if config != null {
      NodeShows(config);
    }
    if EmptyNode(config) {
      var copy := CloneNode(defaults);
      if config == null {
        var key := NewScalar(CONFIG);
        entry.AppendEntry(key, copy);
      } else {
        OverwriteValue(entry, config, at, copy);
      }
      return Done(true);
    }
    if config.kind == MappingNode && defaults.kind == MappingNode {
      var changed := MergeBelow(entry, config, at, defaults);
      return Done(changed);
    }
    return Done(false);
  }

  /** Completes an entry: a missing or null `enabled` becomes true, and the configuration is filled in. */
  method SyncPluginConfigNode(entry: Node, defaults: Node) returns (outcome: Outcome)
    requires entry.Valid() && defaults.Valid() && entry.Repr !! defaults.Repr
    modifies entry.Repr
    ensures Grown(entry)
    ensures match Sync(old(entry.view), defaults.view)
            case Failed => outcome == Error && entry.view == old(entry.view)
            case Edited(tree, changed) => outcome == Done(changed) && entry.view == tree
  {
    hide Node.Valid;
    var enabled := FillMissingPluginEnabled(entry);
    if enabled == Error {
      return Error;
    }
    var config := FillPluginConfigDefaults(entry, defaults);
    if config == Error {
      return Error;
    }
    return Done(enabled.changed || config.changed);
  }

  // ---------------------------------------------------------------- batches

  datatype NodeAssignment = NodeAssignment(path: Path, value: Node)

  ghost function Shown(a: NodeAssignment): Assignment
    reads a.value
  {
    Assignment(a.path, a.value.view)
  }

  /** The nodes of the values to assign are not the configuration's. */
  ghost predicate Outside(owner: Node, a: NodeAssignment)
    reads owner, a.value, a.value.Repr
  {
    a.value.Valid() && a.value.Repr !! owner.Repr
  }

  /** The assignments in turn, up to the first that fails. */
  method ApplyAssignments(config: Node, assignments: seq<NodeAssignment>, ghost shown: seq<Assignment>)
    returns (outcome: Outcome)
    requires config.Valid() && |shown| == |assignments|
    requires forall i :: 0 <= i < |assignments| ==> Outside(config, assignments[i]) && shown[i] == Shown(assignments[i])
    modifies config.Repr
    ensures Grown(config)
    ensures var (tree, changed) := SetAll(old(config.view), shown);
            config.view == tree && outcome == if changed.None? then Error else Done(changed.value)
  {
    hide Node.Valid, SetPath;
    var changed := false;
    var i := 0;
    while i < |assignments|
      invariant i <= |assignments|
      invariant Grown(config)
      invariant forall j :: i <= j < |assignments| ==>
                  Outside(config, assignments[j]) && shown[j] == Shown(assignments[j])
      invariant SetAll(old(config.view), shown) ==
                  var (tree, more) := SetAll(config.view, shown[i..]);
                  (tree, if more.None? then None else Some(changed || more.value))
    {
      var assignment := assignments[i];
      assert shown[i..][0] == Shown(assignment) && shown[i..][1..] == shown[i + 1..];
      if |assignment.path| == 0 {
        return Error;
      }
      var edit := SetMappingPath(config, assignment.path, assignment.value);
      if edit == Error {
        return Error;
      }
      changed := changed || edit.changed;
      i := i + 1;
    }
    return Done(changed);
  }

  /** The assignments in one value node of an entry. */
  method AssignBelow(entry: Node, config: Node, ghost at: nat,
                     assignments: seq<NodeAssignment>, ghost shown: seq<Assignment>)
    returns (outcome: Outcome)
    requires entry.Valid() && at < |entry.content| && config == entry.content[at] && |shown| == |assignments|
    requires forall i :: 0 <= i < |assignments| ==> Outside(entry, assignments[i]) && shown[i] == Shown(assignments[i])
    modifies entry.Repr
    ensures Grown(entry)
    ensures var (tree, changed) := SetAll(old(config.view), shown);
            && entry.view == old(entry.view).(content := old(entry.view).content[at := tree])
            && outcome == if changed.None? then Error else Done(changed.value)
  {
    hide Node.Valid, SetAll;
    entry.ContentShows(at);
    outcome := ApplyAssignments(config, assignments, shown);
    entry.BecomesStale(at);
    entry.Refresh(at);
  }

  /** Sets configuration paths of an entry to copies of values. */
  method SetPluginConfigAssignments(entry: Node, assignments: seq<NodeAssignment>, ghost shown: seq<Assignment>)
    returns (outcome: Outcome)
    requires entry.Valid() && |shown| == |assignments|
    requires forall i :: 0 <= i < |assignments| ==> Outside(entry, assignments[i]) && shown[i] == Shown(assignments[i])
    modifies entry.Repr
    ensures Grown(entry)
    ensures var (tree, changed) := AssignPaths(old(entry.view), shown);
            entry.view == tree && outcome == if changed.None? then Error else Done(changed.value)
  {
    hide Node.Valid, SetAll, Put;
    var ok := EnsurePluginEntryMapping(entry);
    if !ok {
      return Error;
    }
    var config, at := OpenChild(entry, CONFIG);
    if config.kind != MappingNode {
      return Error;
    }
    ghost var tree := SetAll(config.view, shown).0;
    ghost var views := entry.view.content[at := tree];
    outcome := AssignBelow(entry, config, at, assignments, shown);
    assert entry.view.content == views;
  }

  /** The removals in turn, up to the first that fails. */
  method ApplyRemovals(config: Node, paths: seq<Path>) returns (removed: Option<nat>)
    requires config.Valid()
    modifies config.Repr
    ensures Grown(config)
    ensures (config.view, removed) == RemoveAll(old(config.view), paths)
  {
    hide Node.Valid, RemovePath;
    var count := 0;
    var i := 0;
    while i < |paths|
      invariant i <= |paths|
      invariant Grown(config)
      invariant RemoveAll(old(config.view), paths) ==
                  var (tree, more) := RemoveAll(config.view, paths[i..]);
                  (tree, if more.None? then None else Some(count + more.value))
    {
      assert paths[i..][0] == paths[i] && paths[i..][1..] == paths[i + 1..];
      if |paths[i]| == 0 {
        return None;
      }
      var edit := RemoveMappingPath(config, paths[i]);
      if edit == Error {
        return None;
      }
      if edit.changed {
        count := count + 1;
      }
      i := i + 1;
    }
    return Some(count);
  }

  /** The removals in one value node of an entry. */
  method ResetBelow(entry: Node, config: Node, ghost at: nat, paths: seq<Path>) returns (removed: Option<nat>)
    requires entry.Valid() && at < |entry.content| && config == entry.content[at]
    modifies entry.Repr
    ensures Grown(entry)
    ensures var (tree, count) := RemoveAll(old(config.view), paths);
            entry.view == old(entry.view).(content := old(entry.view).content[at := tree]) && removed == count
  {
    hide Node.Valid, RemoveAll;
    entry.ContentShows(at);
    removed := ApplyRemovals(config, paths);
    entry.BecomesStale(at);
    entry.Refresh(at);
  }

  /** Removes configuration paths of an entry, and counts those that were there. */
  method RemovePluginConfigPaths(entry: Node, paths: seq<Path>) returns (removed: Option<nat>)
    requires entry.Valid()
    modifies entry.Repr
    ensures Grown(entry)
    ensures (entry.view, removed) == ResetPaths(old(entry.view), paths)
  {
    hide Node.Valid, RemoveAll;
    var ok := EnsurePluginEntryMapping(entry);
    if !ok {
      return None;
    }
    var config, at := MappingValue(entry, CONFIG);
    if config != null {
      NodeShows(config);
    }
    if EmptyNode(config) {
      return Some(0);
    }
    if config.kind != MappingNode {
      return None;
    }
    removed := ResetBelow(entry, config, at, paths);
  }
}
