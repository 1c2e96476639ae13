/** Laws of setting and removing configuration paths. */
module YamlLaws {
  import opened Common
  import opened YamlTree

  // ---------------------------------------------------------------- shape

  /** Contents of keys and values in turn. */
  predicate Even(content: seq<Tree>) { |content| % 2 == 0 }

  /** No key occurs twice. */
  predicate Keyed(content: seq<Tree>) {
    |content| < 2 || (Find(content[2..], content[0].value) == None && Keyed(content[2..]))
  }

  /** As the decoder makes trees: below the root every node has a kind, and mappings alternate keys and values. */
  predicate Proper(t: Tree) {
    && (t.IsMapping() ==> Even(t.content))
    && forall c :: c in t.content ==> c.kind != Zero && Proper(c)
  }

  /** No mapping anywhere has a key twice. */
  predicate Unique(t: Tree) {
    && (t.IsMapping() ==> Keyed(t.content))
    && forall c :: c in t.content ==> Unique(c)
  }

  // ---------------------------------------------------------------- one mapping

  /** Placing a key leaves every other key where it was, and the key itself too unless it is new and goes last. */
  lemma {:induction false} FindAfterPlace(content: seq<Tree>, key: Tree, value: Tree, k: string)
    requires Even(content)
    ensures Find(Place(content, key, value), k) ==
              if k == key.value && Find(content, k) == None then Some(|content|) else Find(content, k)
    decreases |content|
  {
    var placed := Place(content, key, value);
    if |content| == 0 {
      assert placed[2..] == [];
    } else if content[0].value != key.value {
      FindAfterPlace(content[2..], key, value, k);
      assert placed[0] == content[0];
      assert placed[2..] == Place(content[2..], key, value);
    } else {
      assert placed[0] == content[0] && placed[2..] == content[2..];
    }
  }

  lemma GetAfterPlace(content: seq<Tree>, key: Tree, value: Tree, k: string)
    requires Even(content)
    ensures Get(Place(content, key, value), k) == if k == key.value then Some(value) else Get(content, k)
    ensures Even(Place(content, key, value)) && Place(content, key, value) != []
  {
    FindAfterPlace(content, key, value, k);
    FindAfterPlace(content, key, value, key.value);
    FoundOnce(content, key.value, k);
  }

  /** The entry found is the first with its key, and none is found only where there is none. */
  lemma {:induction false} FindIsFirst(content: seq<Tree>, key: string, j: nat)
    requires j % 2 == 0 && j + 1 < |content| && content[j].value == key
    ensures Find(content, key).Some? && Find(content, key).value <= j && Find(content, key).value % 2 == 0
    decreases |content|
  {
    if content[0].value != key {
      FindIsFirst(content[2..], key, j - 2);
    }
  }

  lemma GetAfterPut(content: seq<Tree>, key: string, value: Tree, k: string)
    requires Even(content)
    ensures Get(Put(content, key, value), k) == if k == key then Some(value) else Get(content, k)
    ensures Even(Put(content, key, value)) && Put(content, key, value) != []
  {
    GetAfterPlace(content, Scalar(key), value, k);
  }

  lemma {:induction false} FoundOnce(content: seq<Tree>, a: string, b: string)
    ensures Find(content, a).Some? && Find(content, b).Some? && a != b ==>
              Find(content, a).value + 1 < Find(content, b).value || Find(content, b).value + 1 < Find(content, a).value
    decreases |content|
  {
    if |content| >= 2 && content[0].value != a && content[0].value != b {
      FoundOnce(content[2..], a, b);
    }
  }

  lemma PutTwice(content: seq<Tree>, key: string, v: Tree, w: Tree)
    requires Even(content)
    ensures Put(Put(content, key, v), key, w) == Put(content, key, w)
  {
    FindAfterPlace(content, Scalar(key), v, key);
  }

  lemma DropAfterNewPut(content: seq<Tree>, key: string, value: Tree)
    requires Even(content) && Get(content, key) == None
    ensures Drop(Put(content, key, value), key) == content
  {
    FindAfterPlace(content, Scalar(key), value, key);
  }

  lemma DropStep(content: seq<Tree>, key: string)
    requires |content| >= 2 && content[0].value != key
    ensures Drop(content, key)[..2] == content[..2] && Drop(content, key)[2..] == Drop(content[2..], key)
    ensures |Drop(content, key)| >= 2
  {
  }

  lemma DropNothing(content: seq<Tree>, key: string)
    requires Find(content, key) == None
    ensures Drop(content, key) == content
  {
  }

  lemma DropHead(content: seq<Tree>, key: string)
    requires |content| >= 2 && content[0].value == key
    ensures Drop(content, key) == content[2..]
  {
  }

  /** Dropping a key leaves every other key's value; where no key occurs twice, the key is gone. */
  lemma {:induction false} GetAfterDrop(content: seq<Tree>, key: string, k: string)
    ensures k != key ==> Get(Drop(content, key), k) == Get(content, k)
    ensures k == key && Keyed(content) ==> Get(Drop(content, key), k) == None
    decreases |content|
  {
    hide Drop;
    if |content| < 2 {
      DropNothing(content, key);
    } else if content[0].value == key {
      DropHead(content, key);
    } else {
      GetAfterDrop(content[2..], key, k);
      DropStep(content, key);
      assert Drop(content, key)[0] == content[0] && Drop(content, key)[1] == content[1];
    }
  }

  lemma ChildOf(t: Tree, key: string)
    requires Proper(t) && Lookup(t, key).Some?
    ensures Lookup(t, key).value in t.content && Lookup(t, key).value < t
    ensures Proper(Lookup(t, key).value) && Lookup(t, key).value.kind != Zero
    ensures Unique(t) ==> Unique(Lookup(t, key).value)
  {
  }

  // ---------------------------------------------------------------- lens laws of setting

  predicate Comparable(p: Path, q: Path) { p <= q || q <= p }

  lemma ComparableTails(p: Path, q: Path)
    requires p != [] && q != [] && p[0] == q[0]
    ensures Comparable(p, q) <==> Comparable(p[1..], q[1..])
  {
    assert p == [p[0]] + p[1..] && q == [q[0]] + q[1..];
  }

  /** A node that setting a longer path cannot go through. */
  predicate Blocks(t: Tree) { !t.IsEmpty() && !t.IsMapping() }

  lemma ProperChild(t: Tree, key: string)
    requires Proper(t)
    ensures Proper(Child(t, key)) && (Unique(t) ==> Unique(Child(t, key)))
  {
    if Lookup(t, key).Some? {
      ChildOf(t, key);
    }
  }

  lemma ResolveStep(t: Tree, path: Path)
    requires path != []
    ensures Resolve(t, path) ==
              if Lookup(t, path[0]).Some? then Resolve(Lookup(t, path[0]).value, path[1..]) else None
  {
  }

  /** Nothing resolves below an empty node. */
  lemma NothingBelowEmpty(t: Tree, path: Path)
    requires t.IsEmpty() && path != []
    ensures Resolve(t, path) == None
  {
  }

  lemma ResolveInChild(t: Tree, path: Path)
    requires |path| > 1
    ensures Resolve(t, path) == Resolve(Child(t, path[0]), path[1..])
  {
    var existing := Lookup(t, path[0]);
    if existing.None? || existing.value.IsEmpty() {
      NothingBelowEmpty(EMPTY_MAP, path[1..]);
      if existing.Some? {
        NothingBelowEmpty(existing.value, path[1..]);
      }
    }
  }

  /** After a successful set the path resolves to the value. */
  lemma {:induction false} SetThenResolve(t: Tree, path: Path, value: Tree)
    requires path != [] && Proper(t) && SetPath(t, path, value).Edited?
    ensures Resolve(SetPath(t, path, value).tree, path) == Some(value)
    decreases |path|
  {
    var t' := SetPath(t, path, value).tree;
    if |path| == 1 {
      GetAfterPut(t.content, path[0], value, path[0]);
      assert path[1..] == [];
      ResolveStep(t', path);
    } else {
      var child := Child(t, path[0]);
      ProperChild(t, path[0]);
      SetThenResolve(child, path[1..], value);
      GetAfterPut(t.content, path[0], SetPath(child, path[1..], value).tree, path[0]);
    }
  }

  /** A successful set changes no path that is neither above nor below the one set. */
  lemma {:induction false} SetKeepsOthers(t: Tree, path: Path, value: Tree, q: Path)
    requires path != [] && Proper(t) && SetPath(t, path, value).Edited? && !Comparable(path, q)
    ensures Resolve(SetPath(t, path, value).tree, q) == Resolve(t, q)
    decreases |path|
  {
    var t' := SetPath(t, path, value).tree;
    var replacement := if |path| == 1 then value else SetPath(Child(t, path[0]), path[1..], value).tree;
    GetAfterPut(t.content, path[0], replacement, q[0]);
    if q[0] == path[0] {
      ComparableTails(path, q);
      ProperChild(t, path[0]);
      SetKeepsOthers(Child(t, path[0]), path[1..], value, q[1..]);
      ResolveInChild(t, q);
    }
  }

  /** Setting changes nothing of the root but its content. */
  lemma SetKeepsHead(t: Tree, path: Path, value: Tree)
    requires path != [] && SetPath(t, path, value).Edited?
    ensures SetPath(t, path, value).tree.(content := []) == t.(content := [])
  {
  }

  /**
   After a successful set every node on the way is a mapping: the one that was there, or, where there was none or an
   empty one, a fresh mapping.
   */
  lemma {:induction false} SetOpensWay(t: Tree, path: Path, value: Tree, i: nat)
    requires Proper(t) && 0 < i < |path| && SetPath(t, path, value).Edited?
    ensures
      var before, after := Resolve(t, path[..i]), Resolve(SetPath(t, path, value).tree, path[..i]);
      && after.Some? && after.value.IsMapping()
      && after.value.(content := []) ==
         if before.None? || before.value.IsEmpty() then Tree(MappingNode, "!!map", "", [])
         else before.value.(content := [])
    decreases |path|
  {
    hide Proper, Place;
    var key, rest := path[0], path[1..];
    var child := Child(t, key);
    var t', child' := SetPath(t, path, value).tree, SetPath(child, rest, value).tree;
    ProperChild(t, key);
    ProperIsEven(t);
    GetAfterPut(t.content, key, child', key);
    SetKeepsHead(child, rest, value);
    assert path[..i][0] == key && path[..i][1..] == rest[..i - 1];
    ResolveStep(t', path[..i]);
    ResolveStep(t, path[..i]);
    if i > 1 {
      SetOpensWay(child, rest, value, i - 1);
      ResolveInChild(t, path[..i]);
    }
  }

  /** No node on the way, short of the end, blocks. */
  ghost predicate ClearWay(t: Tree, path: Path) {
    forall i :: 0 < i < |path| ==> Passable(t, path[..i])
  }

  ghost predicate Passable(t: Tree, prefix: Path) {
    Resolve(t, prefix).Some? ==> !Blocks(Resolve(t, prefix).value)
  }

  lemma ClearWayStep(t: Tree, path: Path)
    requires |path| > 1
    ensures ClearWay(t, path) <==> Passable(t, path[..1]) && ClearWay(Child(t, path[0]), path[1..])
  {
    var child, rest := Child(t, path[0]), path[1..];
    forall i | 1 < i < |path| ensures Passable(t, path[..i]) <==> Passable(child, rest[..i - 1]) {
      assert path[..i][0] == path[0] && path[..i][1..] == rest[..i - 1];
      ResolveInChild(t, path[..i]);
    }
    if Passable(t, path[..1]) && ClearWay(child, rest) {
      forall i | 0 < i < |path| ensures Passable(t, path[..i]) {
        assert i > 1 ==> Passable(child, rest[..i - 1]);
      }
    }
    if ClearWay(t, path) {
      forall i | 0 < i < |rest| ensures Passable(child, rest[..i]) {
        assert Passable(t, path[..i + 1]);
      }
    }
  }

  /** Setting succeeds exactly when the root is a mapping and the way is clear. */
  lemma {:induction false} SetSucceedsIff(t: Tree, path: Path, value: Tree)
    requires path != []
    ensures SetPath(t, path, value).Edited? <==> t.IsMapping() && ClearWay(t, path)
    decreases |path|
  {
    if t.IsMapping() && |path| > 1 {
      ClearWayStep(t, path);
      SetSucceedsIff(Child(t, path[0]), path[1..], value);
      assert path[..1][0] == path[0] && path[..1][1..] == [];
      assert Resolve(t, path[..1]) == Lookup(t, path[0]);
    }
  }

  /** The reported change is a real one: it is whether the path resolved to something else before. */
  lemma {:induction false} SetChangedIff(t: Tree, path: Path, value: Tree)
    requires path != [] && Proper(t) && SetPath(t, path, value).Edited?
    ensures SetPath(t, path, value).changed <==> Resolve(t, path) != Some(value)
    ensures SetPath(t, path, value).changed <==> SetPath(t, path, value).tree != t
    decreases |path|
  {
    if |path| == 1 {
      assert path[1..] == [];
    } else {
      var child := Child(t, path[0]);
      ProperChild(t, path[0]);
      SetChangedIff(child, path[1..], value);
      ResolveInChild(t, path);
      if !SetPath(t, path, value).changed {
        NothingBelowEmpty(EMPTY_MAP, path[1..]);
      }
    }
    SetThenResolve(t, path, value);
  }

  /** Setting a path twice is setting it once, to the second value. */
  lemma {:induction false} SetTwice(t: Tree, path: Path, v: Tree, w: Tree)
    requires path != [] && Proper(t) && SetPath(t, path, v).Edited?
    ensures SetPath(SetPath(t, path, v).tree, path, w).Edited? && SetPath(t, path, w).Edited?
    ensures SetPath(SetPath(t, path, v).tree, path, w).tree == SetPath(t, path, w).tree
    decreases |path|
  {
    var t' := SetPath(t, path, v).tree;
    if |path| == 1 {
      GetAfterPut(t.content, path[0], v, path[0]);
      PutTwice(t.content, path[0], v, w);
    } else {
      var child := Child(t, path[0]);
      var child' := SetPath(child, path[1..], v).tree;
      ProperChild(t, path[0]);
      SetTwice(child, path[1..], v, w);
      SetLeavesContent(child, path[1..], v);
      GetAfterPut(t.content, path[0], child', path[0]);
      assert Child(t', path[0]) == child';
      PutTwice(t.content, path[0], child', SetPath(child', path[1..], w).tree);
    }
  }

  lemma SetLeavesContent(t: Tree, path: Path, value: Tree)
    requires path != [] && Proper(t) && SetPath(t, path, value).Edited?
    ensures SetPath(t, path, value).tree.IsMapping() && SetPath(t, path, value).tree.content != []
  {
    SetThenResolve(t, path, value);
  }

  /** Setting the same value again reports no change and changes nothing. */
  lemma {:induction false} SetAgainIsQuiet(t: Tree, path: Path, value: Tree)
    requires path != [] && Proper(t) && SetPath(t, path, value).Edited?
    ensures SetPath(SetPath(t, path, value).tree, path, value) == Edited(SetPath(t, path, value).tree, false)
  {
    SetTwice(t, path, value, value);
    SetThenResolve(t, path, value);
    AgainIsQuiet(SetPath(t, path, value).tree, path, value);
  }

  lemma {:induction false} AgainIsQuiet(t: Tree, path: Path, value: Tree)
    requires path != [] && Resolve(t, path) == Some(value)
    ensures SetPath(t, path, value) == Edited(t, false)
    decreases |path|
  {
    if |path| == 1 {
      assert path[1..] == [];
    } else {
      ResolveInChild(t, path);
      NothingBelowEmpty(EMPTY_MAP, path[1..]);
      AgainIsQuiet(Child(t, path[0]), path[1..], value);
    }
  }

  // ---------------------------------------------------------------- removing

  /** Some node on the way, short of the end, is there but empty. */
  ghost predicate Hollow(t: Tree, path: Path) {
    exists i :: 0 < i < |path| && ResolvesEmpty(t, path[..i])
  }

  ghost predicate ResolvesEmpty(t: Tree, prefix: Path) {
    Resolve(t, prefix).Some? && Resolve(t, prefix).value.IsEmpty()
  }

  lemma HollowStep(t: Tree, path: Path)
    requires |path| > 1
    ensures Hollow(t, path) <==>
              (Lookup(t, path[0]).Some? && Lookup(t, path[0]).value.IsEmpty()) || Hollow(Child(t, path[0]), path[1..])
  {
    var child, rest := Child(t, path[0]), path[1..];
    assert path[..1][0] == path[0] && path[..1][1..] == [];
    assert Resolve(t, path[..1]) == Lookup(t, path[0]);
    forall i | 1 < i < |path| ensures ResolvesEmpty(t, path[..i]) <==> ResolvesEmpty(child, rest[..i - 1]) {
      assert path[..i][0] == path[0] && path[..i][1..] == rest[..i - 1];
      ResolveInChild(t, path[..i]);
    }
    if Hollow(child, rest) {
      var i :| 0 < i < |rest| && ResolvesEmpty(child, rest[..i]);
      assert ResolvesEmpty(t, path[..i + 1]);
    }
    if Hollow(t, path) {
      var i :| 0 < i < |path| && ResolvesEmpty(t, path[..i]);
      assert i > 1 ==> ResolvesEmpty(child, rest[..i - 1]);
    }
    if Lookup(t, path[0]).Some? && Lookup(t, path[0]).value.IsEmpty() {
      assert ResolvesEmpty(t, path[..1]);
    }
  }

  lemma EmptyMapIsNotHollow(path: Path)
    ensures !Hollow(EMPTY_MAP, path)
  {
    forall i | 0 < i < |path| ensures !ResolvesEmpty(EMPTY_MAP, path[..i]) {
      NothingBelowEmpty(EMPTY_MAP, path[..i]);
    }
  }

  /** One level of removing what was set, given what it leaves of the child. */
  function PruneOrPut(t: Tree, key: string, child: Tree): Tree {
    t.(content := if child.content == [] then Drop(t.content, key) else Put(t.content, key, child))
  }

  lemma {:induction false} PruneRestores(t: Tree, key: string, child': Tree, child'': Tree)
    requires t.IsMapping() && Proper(t) && child''.IsMapping()
    requires Lookup(t, key) == None || Lookup(t, key).value.IsEmpty() ==> child'' == EMPTY_MAP
    requires Lookup(t, key).Some? && !Lookup(t, key).value.IsEmpty() ==> Lookup(t, key).value.content != []
    ensures
      var t'' := PruneOrPut(t.(content := Put(t.content, key, child')), key, child'');
      t'' == t <==> Lookup(t, key) == None || (!Lookup(t, key).value.IsEmpty() && Lookup(t, key).value == child'')
  {
    GetAfterPut(t.content, key, child', key);
    if Lookup(t, key) == None {
      DropAfterNewPut(t.content, key, child');
    } else {
      DropShortens(t.content, key, child');
      PutTwice(t.content, key, child', child'');
      GetAfterPut(t.content, key, child'', key);
      DropShortens(t.content, key, child'');
    }
  }

  lemma RemoveIsPruneOrPut(t: Tree, path: Path, child': Tree)
    requires |path| > 1 && t.IsMapping() && Lookup(t, path[0]) == Some(child')
    requires child'.IsMapping() && child'.content != []
    requires RemovePath(child', path[1..]).Edited? && RemovePath(child', path[1..]).changed
    ensures RemovePath(t, path) == Edited(PruneOrPut(t, path[0], RemovePath(child', path[1..]).tree), true)
  {
  }

  lemma ClearChildHasContent(t: Tree, path: Path, value: Tree)
    requires |path| > 1 && SetPath(t, path, value).Edited?
    requires Lookup(t, path[0]).Some? && !Lookup(t, path[0]).value.IsEmpty()
    ensures Lookup(t, path[0]).value.IsMapping() && Lookup(t, path[0]).value.content != []
  {
  }

  lemma {:induction false} RemoveKeepsMapping(t: Tree, path: Path)
    requires path != [] && RemovePath(t, path).Edited?
    ensures RemovePath(t, path).tree.IsMapping()
  {
  }

  /**
   Removing a path undoes setting it, entry order included, exactly when no node on the way was there but empty: such a
   node is replaced by a fresh mapping and then pruned with it.
   */
  lemma {:induction false} RemoveUndoesSet(t: Tree, path: Path, value: Tree)
    requires path != [] && Proper(t) && Resolve(t, path) == None && SetPath(t, path, value).Edited?
    ensures
      var undone := RemovePath(SetPath(t, path, value).tree, path);
      undone.Edited? && undone.changed && (undone.tree == t <==> !Hollow(t, path))
    decreases |path|
  {
    var key := path[0];
    if |path| == 1 {
      assert path[1..] == [];
      assert Get(t.content, key) == None;
      DropAfterNewPut(t.content, key, value);
      GetAfterPut(t.content, key, value, key);
    } else {
      var child, rest := Child(t, key), path[1..];
      var child' := SetPath(child, rest, value).tree;
      ProperChild(t, key);
      ResolveInChild(t, path);
      RemoveUndoesSet(child, rest, value);
      SetLeavesContent(child, rest, value);
      GetAfterPut(t.content, key, child', key);
      HollowStep(t, path);
      EmptyMapIsNotHollow(rest);
      RemoveIsPruneOrPut(SetPath(t, path, value).tree, path, child');
      RemoveKeepsMapping(child', rest);
      if Lookup(t, key).Some? && !Lookup(t, key).value.IsEmpty() {
        ClearChildHasContent(t, path, value);
      }
      PruneRestores(t, key, child', RemovePath(child', rest).tree);
    }
  }

  /** Such as a null: setting below it and removing that again drops its entry. */
  lemma {:induction false} HollowIsNotRestored(a: string, b: string, value: Tree)
    ensures
      var nil := Tree(ScalarNode, "!!null", "", []);
      var t := Tree(MappingNode, "!!map", "", [Scalar(a), nil]);
      && Hollow(t, [a, b]) && SetPath(t, [a, b], value).Edited?
      && RemovePath(SetPath(t, [a, b], value).tree, [a, b]) == Edited(EMPTY_MAP, true)
  {
    var nil := Tree(ScalarNode, "!!null", "", []);
    var t := Tree(MappingNode, "!!map", "", [Scalar(a), nil]);
    var inner := EMPTY_MAP.(content := [Scalar(b), value]);
    assert [a, b][..1] == [a] && [a, b][1..] == [b] && [a][1..] == [];
    assert Resolve(t, [a]) == Some(nil) && ResolvesEmpty(t, [a, b][..1]);
    assert SetPath(EMPTY_MAP, [b], value) == Edited(inner, true);
    assert SetPath(t, [a, b], value) == Edited(t.(content := [Scalar(a), inner]), true);
    assert RemovePath(inner, [b]) == Edited(EMPTY_MAP, true);
  }

  lemma DropShortens(content: seq<Tree>, key: string, value: Tree)
    requires Even(content) && Get(content, key).Some?
    ensures |Drop(Put(content, key, value), key)| == |content| - 2
    ensures Get(content, key) == Some(value) ==> Put(content, key, value) == content
  {
    FindAfterPlace(content, Scalar(key), value, key);
  }

  /** A removal succeeds exactly when the root is a mapping and the way is clear. */
  lemma {:induction false} RemoveSucceedsIff(t: Tree, path: Path)
    requires path != []
    ensures RemovePath(t, path).Edited? <==> t.IsMapping() && ClearWay(t, path)
    decreases |path|
  {
    if t.IsMapping() && |path| > 1 {
      ClearWayStep(t, path);
      RemoveSucceedsIff(Child(t, path[0]), path[1..]);
      assert path[..1][0] == path[0] && path[..1][1..] == [];
      assert Resolve(t, path[..1]) == Lookup(t, path[0]);
      if Lookup(t, path[0]).None? || Lookup(t, path[0]).value.IsEmpty() {
        EmptyMapIsClear(path[1..]);
      }
    }
  }

  lemma EmptyMapIsClear(path: Path)
    ensures ClearWay(EMPTY_MAP, path)
  {
    forall i | 0 < i < |path| ensures Passable(EMPTY_MAP, path[..i]) {
      NothingBelowEmpty(EMPTY_MAP, path[..i]);
    }
  }

  /** The reported removal is a real one: it is whether the path resolved to anything. */
  lemma {:induction false} RemovedIff(t: Tree, path: Path)
    requires path != [] && RemovePath(t, path).Edited?
    ensures RemovePath(t, path).changed <==> Resolve(t, path).Some?
    ensures !RemovePath(t, path).changed ==> RemovePath(t, path).tree == t
    decreases |path|
  {
    if |path| == 1 {
      assert path[1..] == [];
    } else {
      var existing := Lookup(t, path[0]);
      if existing.Some? && existing.value.IsEmpty() {
        NothingBelowEmpty(existing.value, path[1..]);
      } else if existing.Some? {
        RemovedIff(existing.value, path[1..]);
      }
    }
  }

  /** Removing the path would leave the mapping without entries. */
  predicate Empties(t: Tree, path: Path)
    requires path != []
    decreases |path|
  {
    && t.IsMapping() && |t.content| == 2 && t.content[0].value == path[0]
    && (|path| == 1 || Empties(t.content[1], path[1..]))
  }

  /** What is left of a mapping behind the first entry of a key. */
  function Behind(t: Tree, key: string): Tree
    requires Find(t.content, key).Some?
  {
    t.(content := t.content[Find(t.content, key).value + 2..])
  }

  /**
   A later entry with the same key as one on the path holds the path too, and removing the path uncovers it: at the key
   that the removal drops, or, where the child keeps other entries, somewhere inside the child.
   */
  predicate Shadows(t: Tree, path: Path)
    requires path != []
    decreases |path|
  {
    t.IsMapping() && Find(t.content, path[0]).Some? &&
    var child := t.content[Find(t.content, path[0]).value + 1];
    if |path| == 1 || Empties(child, path[1..]) then Resolve(Behind(t, path[0]), path).Some?
    else Shadows(child, path[1..])
  }

  lemma {:induction false} FindAfterDrop(content: seq<Tree>, key: string)
    requires Find(content, key).Some?
    ensures Get(Drop(content, key), key) == Get(content[Find(content, key).value + 2..], key)
    decreases |content|
  {
    hide Drop;
    if content[0].value == key {
      DropHead(content, key);
    } else {
      FindAfterDrop(content[2..], key);
      DropStep(content, key);
      assert Drop(content, key)[0] == content[0] && Drop(content, key)[1] == content[1];
      assert content[2..][Find(content[2..], key).value + 2..] == content[Find(content, key).value + 2..];
    }
  }

  lemma DroppedResolves(t: Tree, path: Path)
    requires t.IsMapping() && path != [] && Find(t.content, path[0]).Some?
    ensures Resolve(t.(content := Drop(t.content, path[0])), path) == Resolve(Behind(t, path[0]), path)
  {
    FindAfterDrop(t.content, path[0]);
    ResolveStep(t.(content := Drop(t.content, path[0])), path);
    ResolveStep(Behind(t, path[0]), path);
  }

  /** A removal empties a mapping exactly when the path was its only entry, and so on down. */
  lemma {:induction false} RemovalEmptiesIff(t: Tree, path: Path)
    requires path != [] && Proper(t) && RemovePath(t, path).Edited? && RemovePath(t, path).changed
    ensures RemovePath(t, path).tree.content == [] <==> Empties(t, path)
    decreases |path|
  {
    var key := path[0];
    if |path| > 1 {
      ChildOf(t, key);
      RemovalEmptiesIff(Lookup(t, key).value, path[1..]);
      GetAfterPut(t.content, key, RemovePath(Lookup(t, key).value, path[1..]).tree, key);
    }
  }

  lemma {:induction false} EmptiesResolves(t: Tree, path: Path)
    requires path != [] && Empties(t, path)
    ensures Resolve(t, path).Some?
    decreases |path|
  {
    assert Find(t.content, path[0]) == Some(0);
    if |path| > 1 {
      EmptiesResolves(t.content[1], path[1..]);
    } else {
      assert path[1..] == [];
    }
  }

  lemma {:induction false} ShadowsResolves(t: Tree, path: Path)
    requires path != [] && Shadows(t, path)
    ensures Resolve(t, path).Some?
    decreases |path|
  {
    var child := t.content[Find(t.content, path[0]).value + 1];
    ResolveStep(t, path);
    assert Lookup(t, path[0]) == Some(child);
    if |path| == 1 {
      assert path[1..] == [];
    } else if Empties(child, path[1..]) {
      EmptiesResolves(child, path[1..]);
    } else {
      ShadowsResolves(child, path[1..]);
    }
  }

  /** A path that was removed no longer resolves, exactly when no later entry with a repeated key takes its place. */
  lemma {:induction false} RemovedIsGoneIff(t: Tree, path: Path)
    requires path != [] && Proper(t) && RemovePath(t, path).Edited?
    ensures Resolve(RemovePath(t, path).tree, path) == None <==> !Shadows(t, path)
    decreases |path|
  {
    var key := path[0];
    RemovedIff(t, path);
    if !RemovePath(t, path).changed {
      if Shadows(t, path) {
        ShadowsResolves(t, path);
      }
    } else if |path| == 1 {
      DroppedResolves(t, path);
    } else {
      var existing := Lookup(t, key).value;
      var child := RemovePath(existing, path[1..]).tree;
      ChildOf(t, key);
      RemovedIsGoneIff(existing, path[1..]);
      RemovalEmptiesIff(existing, path[1..]);
      DroppedResolves(t, path);
      GetAfterPut(t.content, key, child, key);
      ResolveStep(RemovePath(t, path).tree, path);
    }
  }

  lemma {:induction false} KeyedBehind(content: seq<Tree>, key: string)
    requires Keyed(content) && Find(content, key).Some?
    ensures Find(content[Find(content, key).value + 2..], key) == None
    decreases |content|
  {
    if content[0].value != key {
      KeyedBehind(content[2..], key);
      assert content[2..][Find(content[2..], key).value + 2..] == content[Find(content, key).value + 2..];
    }
  }

  /** Where no key occurs twice nothing is shadowed. */
  lemma {:induction false} UniqueShadowsNothing(t: Tree, path: Path)
    requires path != [] && Unique(t)
    ensures !Shadows(t, path)
    decreases |path|
  {
    if t.IsMapping() && Find(t.content, path[0]).Some? {
      var child := t.content[Find(t.content, path[0]).value + 1];
      KeyedBehind(t.content, path[0]);
      ResolveStep(Behind(t, path[0]), path);
      if |path| > 1 {
        assert child in t.content;
        UniqueShadowsNothing(child, path[1..]);
      }
    }
  }

  lemma RemovedIsGone(t: Tree, path: Path)
    requires path != [] && Proper(t) && Unique(t) && RemovePath(t, path).Edited?
    ensures Resolve(RemovePath(t, path).tree, path) == None
  {
    RemovedIsGoneIff(t, path);
    UniqueShadowsNothing(t, path);
  }

  /** Removing changes no path that is neither above nor below the one removed, although it prunes emptied mappings. */
  lemma {:induction false} RemoveKeepsOthers(t: Tree, path: Path, q: Path)
    requires path != [] && Proper(t) && Unique(t) && RemovePath(t, path).Edited? && !Comparable(path, q)
    ensures Resolve(RemovePath(t, path).tree, q) == Resolve(t, q)
    decreases |path|
  {
    var key := path[0];
    RemovedIff(t, path);
    if RemovePath(t, path).changed {
      GetAfterDrop(t.content, key, q[0]);
      if q[0] == key {
        ComparableTails(path, q);
        ChildOf(t, key);
        var existing := Lookup(t, key).value;
        var child := RemovePath(existing, path[1..]).tree;
        RemoveKeepsOthers(existing, path[1..], q[1..]);
        GetAfterPut(t.content, key, child, key);
        GetAfterDrop(t.content, key, key);
        if child.content == [] {
          NothingBelowEmpty(child, q[1..]);
        }
      } else if |path| > 1 {
        GetAfterPut(t.content, key, RemovePath(Lookup(t, key).value, path[1..]).tree, q[0]);
      }
    }
  }

  /** A key that occurs twice: removing takes the first, and the second shows. */
  lemma DuplicateKeySurvivesRemoval(key: string, v: Tree, w: Tree)
    ensures
      var t := Tree(MappingNode, "!!map", "", [Scalar(key), v, Scalar(key), w]);
      && Shadows(t, [key])
      && RemovePath(t, [key]).Edited? && Resolve(RemovePath(t, [key]).tree, [key]) == Some(w)
  {
    var t := Tree(MappingNode, "!!map", "", [Scalar(key), v, Scalar(key), w]);
    var t' := RemovePath(t, [key]).tree;
    assert t'.content == [Scalar(key), w];
    assert [key][1..] == [];
    ResolveStep(t', [key]);
  }

  // ---------------------------------------------------------------- editing keeps trees well shaped

  lemma PlacedElements(content: seq<Tree>, key: Tree, value: Tree, c: Tree)
    requires c in Place(content, key, value)
    ensures c in content || c == key || c == value
  {
    var placed := Place(content, key, value);
    var j :| 0 <= j < |placed| && placed[j] == c;
    if j < |content| {
      assert placed[j] == content[j] || placed[j] == value;
    }
  }

  lemma ProperParts(t: Tree)
    requires Proper(t)
    ensures t.IsMapping() ==> Even(t.content)
    ensures forall c :: c in t.content ==> c.kind != Zero && Proper(c)
  {
  }

  lemma ProperIsEven(t: Tree)
    requires Proper(t) && t.IsMapping()
    ensures Even(t.content)
  {
  }

  lemma MakeProper(t: Tree)
    requires t.IsMapping() ==> Even(t.content)
    requires forall c :: c in t.content ==> c.kind != Zero && Proper(c)
    ensures Proper(t)
  {
  }

  lemma {:induction false} PlaceKeepsShape(t: Tree, key: Tree, value: Tree)
    requires t.IsMapping() && Proper(t) && Proper(key) && Proper(value) && key.kind != Zero && value.kind != Zero
    ensures Proper(t.(content := Place(t.content, key, value)))
  {
    hide Proper, Place;
    ProperParts(t);
    GetAfterPlace(t.content, key, value, key.value);
    forall c | c in Place(t.content, key, value) ensures c.kind != Zero && Proper(c) {
      PlacedElements(t.content, key, value, c);
    }
    MakeProper(t.(content := Place(t.content, key, value)));
  }

  lemma DroppedElements(content: seq<Tree>, key: string, c: Tree)
    requires c in Drop(content, key)
    ensures c in content
  {
  }

  lemma {:induction false} DropKeepsShape(t: Tree, key: string)
    requires t.IsMapping() && Proper(t)
    ensures Proper(t.(content := Drop(t.content, key)))
  {
    var dropped := Drop(t.content, key);
    hide Proper;
    ProperParts(t);
    assert Even(dropped);
    hide Drop;
    forall c | c in dropped ensures c.kind != Zero && Proper(c) {
      DroppedElements(t.content, key, c);
    }
    MakeProper(t.(content := dropped));
  }

  lemma {:induction false} RemoveKeepsShape(t: Tree, path: Path)
    requires path != [] && Proper(t) && RemovePath(t, path).Edited?
    ensures Proper(RemovePath(t, path).tree)
    ensures RemovePath(t, path).tree.IsMapping()
    decreases |path|
  {
    var key := path[0];
    DropKeepsShape(t, key);
    if |path| > 1 && Lookup(t, key).Some? {
      ChildOf(t, key);
      var existing := Lookup(t, key).value;
      if !existing.IsEmpty() && existing.IsMapping() && RemovePath(existing, path[1..]).Edited? {
        RemoveKeepsShape(existing, path[1..]);
        PlaceKeepsShape(t, Scalar(key), RemovePath(existing, path[1..]).tree);
      }
    }
  }

  lemma {:induction false} KeyedAfterDrop(content: seq<Tree>, key: string)
    requires Keyed(content)
    ensures Keyed(Drop(content, key))
    decreases |content|
  {
    if |content| >= 2 && content[0].value != key {
      KeyedAfterDrop(content[2..], key);
      DropStep(content, key);
      GetAfterDrop(content[2..], key, content[0].value);
      assert Drop(content, key)[0] == content[0];
    } else if |content| >= 2 {
      assert Drop(content, key) == content[2..];
    }
  }

  lemma {:induction false} KeyedAfterPut(content: seq<Tree>, key: string, value: Tree)
    requires Keyed(content) && Even(content) && Find(content, key).Some?
    ensures Keyed(Put(content, key, value))
    decreases |content|
  {
    var put := Put(content, key, value);
    if content[0].value == key {
      assert put[2..] == content[2..];
    } else {
      KeyedAfterPut(content[2..], key, value);
      FindAfterPlace(content[2..], Scalar(key), value, content[0].value);
      assert put[2..] == Put(content[2..], key, value);
    }
  }

  lemma {:induction false} RemoveKeepsUnique(t: Tree, path: Path)
    requires path != [] && Proper(t) && Unique(t) && RemovePath(t, path).Edited?
    ensures Unique(RemovePath(t, path).tree)
    decreases |path|
  {
    var key := path[0];
    var t' := RemovePath(t, path).tree;
    KeyedAfterDrop(t.content, key);
    RemovedIff(t, path);
    if |path| > 1 && t' != t {
      ChildOf(t, key);
      var child := RemovePath(Lookup(t, key).value, path[1..]).tree;
      RemoveKeepsUnique(Lookup(t, key).value, path[1..]);
      KeyedAfterPut(t.content, key, child);
      forall c | c in t'.content ensures Unique(c) {
        if child.content != [] {
          PlacedElements(t.content, Scalar(key), child, c);
        }
        assert c in t.content || c == Scalar(key) || c == child;
      }
    }
  }

  /**
   A removal adds nothing: what resolves after it resolved before, to the same node or, above the path, to a mapping.
   */
  lemma {:induction false} RemoveOnlyRemoves(t: Tree, path: Path, q: Path)
    requires path != [] && Proper(t) && Unique(t) && RemovePath(t, path).Edited?
    ensures
      var before, after := Resolve(t, q), Resolve(RemovePath(t, path).tree, q);
      after.Some? ==> before.Some? && (after == before || (before.value.IsMapping() && after.value.IsMapping()))
    decreases |path|
  {
    RemovedIff(t, path);
    RemoveKeepsMapping(t, path);
    if q != [] && RemovePath(t, path).changed {
      var key := path[0];
      GetAfterDrop(t.content, key, q[0]);
      if |path| > 1 {
        ChildOf(t, key);
        var child := RemovePath(Lookup(t, key).value, path[1..]).tree;
        GetAfterPut(t.content, key, child, q[0]);
        if q[0] == key {
          RemoveOnlyRemoves(Lookup(t, key).value, path[1..], q[1..]);
        }
      }
    }
  }

  // ---------------------------------------------------------------- batches of assignments

  lemma {:induction false} SetKeepsShape(t: Tree, path: Path, value: Tree)
    requires path != [] && Proper(t) && Proper(value) && value.kind != Zero && SetPath(t, path, value).Edited?
    ensures Proper(SetPath(t, path, value).tree) && SetPath(t, path, value).tree.IsMapping()
    decreases |path|
  {
    if |path| == 1 {
      PlaceKeepsShape(t, Scalar(path[0]), value);
    } else {
      ProperChild(t, path[0]);
      SetKeepsShape(Child(t, path[0]), path[1..], value);
      PlaceKeepsShape(t, Scalar(path[0]), SetPath(Child(t, path[0]), path[1..], value).tree);
    }
  }

  predicate ProperValues(assignments: seq<Assignment>) {
    forall a :: a in assignments ==> Proper(a.value) && a.value.kind != Zero
  }

  /** A batch, even a failing one, leaves alone every path that is neither above nor below one of its own. */
  lemma {:induction false} SetAllKeepsOthers(config: Tree, assignments: seq<Assignment>, q: Path)
    requires Proper(config) && ProperValues(assignments)
    requires forall a :: a in assignments ==> !Comparable(a.path, q)
    ensures Resolve(SetAll(config, assignments).0, q) == Resolve(config, q)
    decreases |assignments|
  {
    if assignments != [] {
      var a := assignments[0];
      if SetPath(config, a.path, a.value).Edited? {
        SetKeepsShape(config, a.path, a.value);
        SetKeepsOthers(config, a.path, a.value, q);
        SetAllKeepsOthers(SetPath(config, a.path, a.value).tree, assignments[1..], q);
      }
    }
  }

  /** After a batch of assignments each path that none after it crosses resolves to the value assigned to it. */
  lemma {:induction false} SetAllResolves(config: Tree, assignments: seq<Assignment>, i: nat)
    requires Proper(config) && ProperValues(assignments) && SetAll(config, assignments).1.Some? && i < |assignments|
    requires forall j :: i < j < |assignments| ==> !Comparable(assignments[j].path, assignments[i].path)
    ensures Resolve(SetAll(config, assignments).0, assignments[i].path) == Some(assignments[i].value)
    decreases i
  {
    var a := assignments[0];
    var first, rest := SetPath(config, a.path, a.value).tree, assignments[1..];
    SetKeepsShape(config, a.path, a.value);
    if i == 0 {
      SetThenResolve(config, a.path, a.value);
      SetAllKeepsOthers(first, rest, a.path);
    } else {
      SetAllResolves(first, rest, i - 1);
    }
  }
}
