/**
 YAML configuration trees as values, and what each editing and merging step makes of them.  A mapping's content
 alternates keys and values; lookups and removals act on the first matching key only.
 */
module YamlTree {
  import opened Common

  datatype Kind = Zero | DocumentNode | SequenceNode | MappingNode | ScalarNode | AliasNode

  datatype Tree = Tree(kind: Kind, tag: string, value: string, content: seq<Tree>) {
    predicate IsMapping() { kind == MappingNode }
    predicate IsNull() { kind == ScalarNode && tag == "!!null" }
    /** A node that counts as no configuration at all. */
    predicate IsEmpty() { kind == Zero || IsNull() || (IsMapping() && content == []) }
  }

  type Path = seq<string>

  function Scalar(value: string): Tree { Tree(ScalarNode, "!!str", value, []) }

  function Bool(value: bool): Tree { Tree(ScalarNode, "!!bool", if value then "true" else "false", []) }

  const EMPTY_MAP := Tree(MappingNode, "!!map", "", [])

  // ---------------------------------------------------------------- one mapping's content

  /** The position of the first key that matches. */
  function Find(content: seq<Tree>, key: string): (i: Option<nat>)
    ensures i.Some? ==> i.value + 1 < |content| && content[i.value].value == key
  {
    if |content| < 2 then None
    else if content[0].value == key then Some(0)
    else match Find(content[2..], key) case None => None case Some(i) => Some(i + 2)
  }

  function Get(content: seq<Tree>, key: string): Option<Tree> {
    var i := Find(content, key);
    if i.Some? then Some(content[i.value + 1]) else None
  }

  /** Overwrites the value of the first matching key, or appends an entry with the given key node. */
  function Place(content: seq<Tree>, key: Tree, value: Tree): seq<Tree> {
    var i := Find(content, key.value);
    if i.Some? then content[i.value + 1 := value] else content + [key, value]
  }

  function Put(content: seq<Tree>, key: string, value: Tree): seq<Tree> { Place(content, Scalar(key), value) }

  function Drop(content: seq<Tree>, key: string): seq<Tree> {
    var i := Find(content, key);
    if i.Some? then content[..i.value] + content[i.value + 2..] else content
  }

  function Lookup(t: Tree, key: string): Option<Tree> { if t.IsMapping() then Get(t.content, key) else None }

  function Resolve(t: Tree, path: Path): Option<Tree>
    decreases |path|
  {
    if path == [] then Some(t)
    else match Lookup(t, path[0]) case None => None case Some(child) => Resolve(child, path[1..])
  }

  // ---------------------------------------------------------------- setting and removing a path

  datatype Edit = Failed | Edited(tree: Tree, changed: bool)

  /** What a step down a path works on: a missing or empty child is first replaced by an empty mapping. */
  function Child(t: Tree, key: string): Tree {
    var existing := Lookup(t, key);
    if existing.None? || existing.value.IsEmpty() then EMPTY_MAP else existing.value
  }

  function SetPath(t: Tree, path: Path, value: Tree): Edit
    requires path != []
    decreases |path|
  {
    if !t.IsMapping() then Failed
    else if |path| == 1 then
      if Lookup(t, path[0]) == Some(value) then Edited(t, false)
      else Edited(t.(content := Put(t.content, path[0], value)), true)
    else if !Child(t, path[0]).IsMapping() then Failed
    else match SetPath(Child(t, path[0]), path[1..], value)
      case Failed => Failed
      case Edited(child, changed) => Edited(t.(content := Put(t.content, path[0], child)), changed)
  }

  function RemovePath(t: Tree, path: Path): Edit
    requires path != []
    decreases |path|
  {
    if !t.IsMapping() then Failed
    else if |path| == 1 then Edited(t.(content := Drop(t.content, path[0])), Lookup(t, path[0]).Some?)
    else
      var existing := Lookup(t, path[0]);
      if existing.None? || existing.value.IsEmpty() then Edited(t, false)
      else if !existing.value.IsMapping() then Failed
      else match RemovePath(existing.value, path[1..])
        case Failed => Failed
        case Edited(child, removed) =>
          if !removed then Edited(t, false)
          else if child.content == [] then Edited(t.(content := Drop(t.content, path[0])), true)
          else Edited(t.(content := Put(t.content, path[0], child)), true)
  }

  // ---------------------------------------------------------------- merging defaults

  /** Merging a default value into what the target has for its key, and whether that counts as a change. */
  function MergeValue(existing: Tree, value: Tree): (Tree, bool)
    decreases value, 1
  {
    if existing.IsMapping() && value.IsMapping() then
      var (content, changed) := MergeContent(existing.content, value.content);
      (existing.(content := content), changed)
    else if existing.IsNull() then (value, true)
    else (existing, false)
  }

  function MergeEntry(target: seq<Tree>, key: Tree, value: Tree): (seq<Tree>, bool)
    decreases value, 2
  {
    match Get(target, key.value)
    case None => (Place(target, key, value), true)
    case Some(existing) =>
      var (merged, changed) := MergeValue(existing, value);
      (Place(target, key, merged), changed)
  }

  function MergeContent(target: seq<Tree>, defaults: seq<Tree>): (seq<Tree>, bool)
    decreases defaults, 0
  {
    if |defaults| < 2 then (target, false)
    else
      var (first, changed) := MergeEntry(target, defaults[0], defaults[1]);
      var (all, more) := MergeContent(first, defaults[2..]);
      (all, changed || more)
  }

  function Merge(target: Tree, defaults: Tree): (Tree, bool) {
    var (content, changed) := MergeContent(target.content, defaults.content);
    (target.(content := content), changed)
  }

  // ---------------------------------------------------------------- plugin entries

  const ENABLED := "enabled"
  const CONFIG := "config"

  /** A null entry becomes an empty mapping; anything else that is not a mapping is an error. */
  function EnsureEntry(entry: Tree): Option<Tree> {
    if entry.IsNull() then Some(EMPTY_MAP) else if entry.IsMapping() then Some(entry) else None
  }

  function FillEnabled(entry: Tree): Edit {
    match EnsureEntry(entry)
    case None => Failed
    case Some(e) =>
      match Lookup(e, ENABLED)
      case None => Edited(e.(content := [Scalar(ENABLED), Bool(true)] + e.content), true)
      case Some(enabled) =>
        if enabled.IsNull() then Edited(e.(content := Put(e.content, ENABLED, Bool(true))), true) else Edited(e, false)
  }

  function FillConfig(entry: Tree, defaults: Tree): Edit {
    match EnsureEntry(entry)
    case None => Failed
    case Some(e) =>
      var config := Lookup(e, CONFIG);
      if config.None? || config.value.IsEmpty() then Edited(e.(content := Put(e.content, CONFIG, defaults)), true)
      else if config.value.IsMapping() && defaults.IsMapping() then
        var (merged, changed) := Merge(config.value, defaults);
        Edited(e.(content := Put(e.content, CONFIG, merged)), changed)
      else Edited(e, false)
  }

  function Sync(entry: Tree, defaults: Tree): Edit {
    match FillEnabled(entry)
    case Failed => Failed
    case Edited(e, enabledFilled) =>
      match FillConfig(e, defaults)
      case Failed => Failed
      case Edited(e', configFilled) => Edited(e', enabledFilled || configFilled)
  }

  // ---------------------------------------------------------------- batches of edits

  datatype Assignment = Assignment(path: Path, value: Tree)

  /**
   Assignments in turn: what the configuration becomes, and whether it changed; an error keeps what came before it.
   */
  function SetAll(config: Tree, assignments: seq<Assignment>): (Tree, Option<bool>)
    decreases |assignments|
  {
    if assignments == [] then (config, Some(false))
    else if assignments[0].path == [] then (config, None)
    else match SetPath(config, assignments[0].path, assignments[0].value)
      case Failed => (config, None)
      case Edited(first, changed) =>
        var (last, more) := SetAll(first, assignments[1..]);
        (last, if more.None? then None else Some(changed || more.value))
  }

  /** Removals in turn: what the configuration becomes, and how many of the paths were there. */
  function RemoveAll(config: Tree, paths: seq<Path>): (Tree, Option<nat>)
    decreases |paths|
  {
    if paths == [] then (config, Some(0))
    else if paths[0] == [] then (config, None)
    else match RemovePath(config, paths[0])
      case Failed => (config, None)
      case Edited(first, removed) =>
        var (last, more) := RemoveAll(first, paths[1..]);
        (last, if more.None? then None else Some(more.value + if removed then 1 else 0))
  }

  /** Setting configuration paths of an entry. */
  function AssignPaths(entry: Tree, assignments: seq<Assignment>): (Tree, Option<bool>) {
    match EnsureEntry(entry)
    case None => (entry, None)
    case Some(e) =>
      if !Child(e, CONFIG).IsMapping() then (e, None)
      else
        var (config, changed) := SetAll(Child(e, CONFIG), assignments);
        (e.(content := Put(e.content, CONFIG, config)), changed)
  }

  /** Removing the overrides of configuration paths from an entry. */
  function ResetPaths(entry: Tree, paths: seq<Path>): (Tree, Option<nat>) {
    match EnsureEntry(entry)
    case None => (entry, None)
    case Some(e) =>
      var config := Lookup(e, CONFIG);
      if config.None? || config.value.IsEmpty() then (e, Some(0))
      else if !config.value.IsMapping() then (e, None)
      else
        var (config', removed) := RemoveAll(config.value, paths);
        (e.(content := Put(e.content, CONFIG, config')), removed)
  }
}
