/**
 Editing YAML configuration in place, step by step as the source does: cloning, looking up and removing keys, setting
 and removing paths, and merging defaults.  Each method shows on its nodes exactly what the function of the same step
 makes of the trees they show, adds fresh nodes only, and on an error leaves behind what the source leaves behind.
 */
module YamlEdit {
  import opened Common
  import opened YamlTree
  import opened YamlNode

  // ---------------------------------------------------------------- footprints

  /** A node that was edited inside its own footprint and fresh nodes only. */
  twostate predicate Grown(n: Node)
    reads n, n.Repr
  {
    n.Valid() && old(n.Repr) <= n.Repr && fresh(n.Repr - old(n.Repr))
  }

  // ---------------------------------------------------------------- small nodes

  method NewScalar(value: string) returns (n: Node)
    ensures n.Valid() && fresh(n.Repr) && n.view == Scalar(value)
  {
    n := new Node(ScalarNode, "!!str", value, []);
  }

  method NewBool(value: bool) returns (n: Node)
    ensures n.Valid() && fresh(n.Repr) && n.view == Bool(value)
  {
    n := new Node(ScalarNode, "!!bool", if value then "true" else "false", []);
  }

  method NewEmptyConfig() returns (n: Node)
    ensures n.Valid() && fresh(n.Repr) && n.view == EMPTY_MAP
  {
    n := new Node(MappingNode, "!!map", "", []);
  }

  predicate EmptyNode(n: Node?)
    reads n
  {
    || n == null
    || n.kind == Zero
    || (n.kind == ScalarNode && n.tag == "!!null")
    || (n.kind == MappingNode && n.content == [])
  }

  lemma NodeShows(n: Node)
    requires n.Valid()
    ensures n.view.tag == n.tag && n.view.value == n.value
    ensures EmptyNode(n) <==> n.view.IsEmpty()
  {
  }

  /** A deep copy: it shows the same tree and shares no node with anything. */
  method CloneNode(n: Node) returns (out: Node)
    requires n.Valid()
    ensures out.Valid() && fresh(out.Repr) && out.view == n.view
    decreases n.Repr
  {
    hide Node.Valid;
    NodeShows(n);
    var copies: seq<Node> := [];
    var i := 0;
    while i < |n.content|
      invariant i == |copies| <= |n.content|
      invariant forall c :: c in copies ==> c.Valid()
      invariant fresh(Footprint(copies)) && Apart(copies) && Views(copies) == n.view.content[..i]
    {
      n.ContentShows(i);
      var copy := CloneNode(n.content[i]);
      AddOne(copies, copy);
      copies := copies + [copy];
      i := i + 1;
    }
    out := new Node(n.kind, n.tag, n.value, copies);
    assert out.view.content == n.view.content;
  }

  // ---------------------------------------------------------------- one mapping

  /** The value node of the first key that matches, and where it is. */
  method MappingValue(mapping: Node?, key: string) returns (found: Node?, ghost at: nat)
    requires mapping != null ==> mapping.Valid()
    ensures mapping == null ==> found == null
    ensures mapping != null ==> (found == null <==> Lookup(mapping.view, key) == None)
    ensures found != null ==>
              && mapping.kind == MappingNode && at < |mapping.content| && found == mapping.content[at]
              && at > 0 && Find(mapping.view.content, key) == Some(at - 1)
              && mapping.Owns(found) && found.Valid() && found.view == mapping.view.content[at]
  {
    hide Node.Valid;
    found, at := null, 0;
    if mapping == null || mapping.kind != MappingNode {
      return;
    }
    ghost var views := mapping.view.content;
    var i := 0;
    while i + 1 < |mapping.content|
      invariant i <= |mapping.content|
      invariant Find(views, key) == match Find(views[i..], key) case None => None case Some(j) => Some(i + j)
    {
      mapping.ContentShows(i);
      mapping.ContentShows(i + 1);
      if mapping.content[i].value == key {
        return mapping.content[i + 1], i + 1;
      }
      assert views[i..][2..] == views[i + 2..];
      i := i + 2;
    }
  }

  /** Removes the entry of the first key that matches. */
  method RemoveMappingKey(mapping: Node?, key: string) returns (removed: bool)
    requires mapping != null ==> mapping.Valid()
    modifies mapping
    ensures mapping == null ==> !removed
    ensures mapping != null ==>
              && mapping.Valid() && mapping.Repr == old(mapping.Repr)
              && removed == Lookup(old(mapping.view), key).Some?
              && (!removed ==> mapping.view == old(mapping.view))
              && (removed ==> mapping.view == old(mapping.view).(content := Drop(old(mapping.view).content, key)))
  {
    hide Node.Valid;
    if mapping == null || mapping.kind != MappingNode {
      return false;
    }
    ghost var views := mapping.view.content;
    var i := 0;
    while i + 1 < |mapping.content|
      invariant mapping.Valid() && unchanged(mapping)
      invariant i <= |mapping.content|
      invariant Find(views, key) == match Find(views[i..], key) case None => None case Some(j) => Some(i + j)
    {
      mapping.ContentShows(i);
      if mapping.content[i].value == key {
        mapping.RemoveEntry(i);
        return true;
      }
      assert views[i..][2..] == views[i + 2..];
      i := i + 2;
    }
    return false;
  }

  /** Whether two nodes show the same tree. */
  method SameNode(a: Node, b: Node) returns (same: bool)
    requires a.Valid() && b.Valid()
    ensures same <==> a.view == b.view
    decreases a.Repr
  {
    if a.kind != b.kind || a.tag != b.tag || a.value != b.value || |a.content| != |b.content| {
      return false;
    }
    var i := 0;
    while i < |a.content|
      invariant i <= |a.content|
      invariant forall k :: 0 <= k < i ==> a.view.content[k] == b.view.content[k]
    {
      var alike := SameNode(a.content[i], b.content[i]);
      if !alike {
        return false;
      }
      i := i + 1;
    }
    return true;
  }

  /** Overwrites one value node of a mapping. */
  method OverwriteValue(mapping: Node, existing: Node, ghost at: nat, value: Node)
    requires mapping.Valid() && at < |mapping.content| && existing == mapping.content[at]
    requires value.Valid() && value.Repr !! mapping.Repr
    modifies mapping, existing
    ensures mapping.Valid() && mapping.content == old(mapping.content) && existing.view == value.view
    ensures mapping.view == old(mapping.view).(content := old(mapping.view).content[at := value.view])
    ensures mapping.Repr == old(mapping.Repr) + value.Repr
  {
    existing.Overwrite(value);
    mapping.Refresh(at);
  }

  // ---------------------------------------------------------------- setting and removing a path

  datatype Outcome = Error | Done(changed: bool)

  lemma {:induction false} SetBelowEmptySucceeds(path: Path, value: Tree)
    requires path != []
    ensures SetPath(EMPTY_MAP, path, value).Edited?
    decreases |path|
  {
    if |path| > 1 {
      SetBelowEmptySucceeds(path[1..], value);
    }
  }

  /** Sets one key of a mapping to a copy of the value. */
  method SetKey(mapping: Node, key: string, value: Node) returns (changed: bool)
    requires mapping.Valid() && mapping.kind == MappingNode && value.Valid()
    modifies mapping.Repr
    ensures Grown(mapping)
    ensures Edited(mapping.view, changed) == SetPath(old(mapping.view), [key], old(value.view))
  {
    hide Node.Valid;
    var existing, at := MappingValue(mapping, key);
    var copy := CloneNode(value);
    if existing == null {
      var name := NewScalar(key);
      mapping.AppendEntry(name, copy);
      return true;
    }
    var same := SameNode(existing, copy);
    if same {
      return false;
    }
    OverwriteValue(mapping, existing, at, copy);
    return true;
  }

  /** The node a step down a path works on: where there is none, or an empty one, it becomes an empty mapping. */
  method OpenChild(mapping: Node, key: string) returns (existing: Node, ghost at: nat)
    requires mapping.Valid() && mapping.kind == MappingNode
    modifies mapping.Repr
    ensures Grown(mapping) && at < |mapping.content| && existing == mapping.content[at]
    ensures mapping.Owns(existing) && existing.Valid()
    ensures existing.view == Child(old(mapping.view), key)
    ensures mapping.view == old(mapping.view).(content := Put(old(mapping.view).content, key, existing.view))
    ensures Lookup(old(mapping.view), key) == Some(existing.view) ==> mapping.view == old(mapping.view)
    ensures forall v :: mapping.view.content[at := v] == Put(old(mapping.view).content, key, v)
  {
    hide Node.Valid;
    var found: Node?;
    found, at := MappingValue(mapping, key);
    if found != null {
      NodeShows(found);
    }
    if EmptyNode(found) {
      var empty := NewEmptyConfig();
      if found == null {
        var name := NewScalar(key);
        mapping.AppendEntry(name, empty);
        assert mapping.content[|mapping.content| - 1] == empty;
        return empty, |mapping.content| - 1;
      }
      OverwriteValue(mapping, found, at, empty);
    }
    existing := found;
    assert old(mapping.view).content[at := old(mapping.view).content[at]] == old(mapping.view).content;
  }

  /** The value is copied: the edited mapping owns nothing but its old nodes and fresh ones. */
  method SetMappingPath(mapping: Node, path: Path, value: Node) returns (outcome: Outcome)
    requires path != [] && mapping.Valid() && value.Valid() && value.Repr !! mapping.Repr
    modifies mapping.Repr
    ensures Grown(mapping)
    ensures match SetPath(old(mapping.view), path, value.view)
            case Failed => outcome == Error && mapping.view == old(mapping.view)
            case Edited(tree, changed) => outcome == Done(changed) && mapping.view == tree
    decreases |path|
  {
    hide Node.Valid;
    if mapping.kind != MappingNode {
      return Error;
    }
    var key := path[0];
    if |path| == 1 {
      assert path == [key];
      var changed := SetKey(mapping, key, value);
      return Done(changed);
    }
    var existing, at := OpenChild(mapping, key);
    if existing.kind != MappingNode {
      return Error;
    }
    SetBelowEmptySucceeds(path[1..], value.view);
    label before:
    outcome := SetMappingPath(existing, path[1..], value);
    mapping.BecomesStale@before(at);
    mapping.Refresh(at);
  }

  lemma {:induction false} ReplacedIsFound(content: seq<Tree>, key: string, at: nat, value: Tree)
    requires 0 < at < |content| && Find(content, key) == Some(at - 1)
    ensures Find(content[at := value], key) == Some(at - 1)
    ensures Drop(content[at := value], key) == Drop(content, key) && Put(content, key, value) == content[at := value]
    decreases |content|
  {
    if content[0].value != key {
      ReplacedIsFound(content[2..], key, at - 2, value);
      assert content[at := value][2..] == content[2..][at - 2 := value];
    }
  }

  /** Drops the entry of a key when the value it has is left without content. */
  method PruneEmptied(mapping: Node, key: string, existing: Node)
    requires mapping.Valid() && mapping.kind == MappingNode && existing.Valid()
    requires Lookup(mapping.view, key) == Some(existing.view)
    modifies mapping
    ensures mapping.Valid() && mapping.Repr == old(mapping.Repr)
    ensures mapping.view == if old(existing.view).content == [] then
                              old(mapping.view).(content := Drop(old(mapping.view).content, key))
                            else old(mapping.view)
  {
    hide Node.Valid;
    if |existing.content| == 0 {
      assert existing.view.content == [];
      var _ := RemoveMappingKey(mapping, key);
    }
  }

  /** Removes a path below one value node of a mapping. */
  method RemoveBelow(parent: Node, existing: Node, ghost at: nat, path: Path) returns (outcome: Outcome)
    requires path != [] && parent.Valid() && at < |parent.content| && existing == parent.content[at]
    modifies parent.Repr
    ensures Grown(parent) && at < |parent.content| && existing == parent.content[at] && existing.Valid()
    ensures parent.view == old(parent.view).(content := old(parent.view).content[at := existing.view])
    ensures match RemovePath(old(existing.view), path)
            case Failed => outcome == Error && existing.view == old(existing.view)
            case Edited(tree, removed) => outcome == Done(removed) && existing.view == tree
    decreases |path|, 1
  {
    hide Node.Valid;
    parent.ContentShows(at);
    outcome := RemoveMappingPath(existing, path);
    parent.BecomesStale(at);
    parent.Refresh(at);
    parent.ContentShows(at);
  }

  /** Removing prunes the mappings that it empties, and no other. */
  method RemoveMappingPath(mapping: Node, path: Path) returns (outcome: Outcome)
    requires path != [] && mapping.Valid()
    modifies mapping.Repr
    ensures Grown(mapping)
    ensures match RemovePath(old(mapping.view), path)
            case Failed => outcome == Error && mapping.view == old(mapping.view)
            case Edited(tree, removed) => outcome == Done(removed) && mapping.view == tree
    decreases |path|, 0
  {
    hide Node.Valid;
    if mapping.kind != MappingNode {
      return Error;
    }
    var key := path[0];
    if |path| == 1 {
      var removed := RemoveMappingKey(mapping, key);
      return Done(removed);
    }
    hide Drop, Put, Find;
    var existing, at := MappingValue(mapping, key);
    if existing != null {
      NodeShows(existing);
    }
    if EmptyNode(existing) {
      return Done(false);
    }
    if existing.kind != MappingNode {
      return Error;
    }
    ghost var views := mapping.view.content;
    assert views[at := views[at]] == views;
    outcome := RemoveBelow(mapping, existing, at, path[1..]);
    if outcome == Error || !outcome.changed {
      return;
    }
    ReplacedIsFound(old(mapping.view).content, key, at, existing.view);
    PruneEmptied(mapping, key, existing);
    return Done(true);
  }

  // ---------------------------------------------------------------- merging defaults

  /** Fills what the target lacks with copies of the defaults. */
  method MergeMappingDefaults(target: Node, defaults: Node) returns (changed: bool)
    requires target.Valid() && defaults.Valid() && target.Repr !! defaults.Repr
    requires target.kind == MappingNode
    modifies target.Repr
    ensures Grown(target)
    ensures (target.view, changed) == Merge(old(target.view), defaults.view)
    decreases defaults.Repr, 0
  {
    changed := false;
    ghost var wanted := defaults.view.content;
    var i := 0;
    while i + 1 < |defaults.content|
      invariant i <= |defaults.content|
      invariant Grown(target) && defaults.Valid()
      invariant target.view == old(target.view).(content := target.view.content)
      invariant MergeContent(old(target.view).content, wanted) ==
                  var (content, more) := MergeContent(target.view.content, wanted[i..]); (content, changed || more)
    {
      assert wanted[i..][2..] == wanted[i + 2..];
      var filled := MergeDefault(target, defaults.content[i], defaults.content[i + 1]);
      changed := changed || filled;
      i := i + 2;
    }
  }

  /** Merges defaults into one value node of a mapping. */
  method MergeBelow(parent: Node, existing: Node, ghost at: nat, defaults: Node) returns (changed: bool)
    requires parent.Valid() && at < |parent.content| && existing == parent.content[at] && existing.kind == MappingNode
    requires defaults.Valid() && parent.Repr !! defaults.Repr
    modifies parent.Repr
    ensures Grown(parent)
    ensures var (merged, changed') := Merge(old(existing.view), defaults.view);
            parent.view == old(parent.view).(content := old(parent.view).content[at := merged]) && changed == changed'
    decreases defaults.Repr, 1
  {
    hide Node.Valid;
    parent.ContentShows(at);
    changed := MergeMappingDefaults(existing, defaults);
    parent.BecomesStale(at);
    parent.Refresh(at);
  }

  /** One default: absent keys get copies of key and value, mappings are merged, and a null is overwritten. */
  method MergeDefault(target: Node, key: Node, value: Node) returns (changed: bool)
    requires target.Valid() && key.Valid() && value.Valid() && target.Repr !! key.Repr && target.Repr !! value.Repr
    requires target.kind == MappingNode
    modifies target.Repr
    ensures Grown(target)
    ensures target.view == old(target.view).(content := target.view.content)
    ensures (target.view.content, changed) == MergeEntry(old(target.view).content, key.view, value.view)
    decreases value.Repr, 2
  {
    hide Node.Valid;
    NodeShows(key);
    var existing, at := MappingValue(target, key.value);
    if existing != null {
      NodeShows(existing);
    }
    if existing == null {
      var keyCopy := CloneNode(key);
      var valueCopy := CloneNode(value);
      target.AppendEntry(keyCopy, valueCopy);
      return true;
    }
    if existing.kind == MappingNode && value.kind == MappingNode {
      changed := MergeBelow(target, existing, at, value);
      return;
    }
    if existing.kind == ScalarNode && existing.tag == "!!null" {
      var copy := CloneNode(value);
      OverwriteValue(target, existing, at, copy);
      return true;
    }
    assert target.view.content[at := existing.view] == target.view.content;
    return false;
  }
}
