/**
 YAML nodes on the heap, and the small in-place steps that editing is made of.  A node owns a footprint and carries, as
 ghost state, the tree that it shows; each step changes one node and says how the tree changes with it.  A node above
 one that was changed is stale until it is refreshed, which is how an edit deep down reaches the tree of the root.
 */
module YamlNode {
  import opened YamlTree

  /** The footprints of some nodes share nothing. */
  ghost predicate Apart(nodes: seq<Node>)
    reads nodes
  {
    forall i, j :: 0 <= i < j < |nodes| ==> nodes[i].Repr !! nodes[j].Repr
  }

  ghost function Footprint(nodes: seq<Node>): set<Node>
    reads nodes
  {
    set n, m | n in nodes && m in n.Repr :: m
  }

  ghost function Views(nodes: seq<Node>): (views: seq<Tree>)
    reads nodes
    ensures |views| == |nodes|
  {
    seq(|nodes|, i requires 0 <= i < |nodes| reads nodes => nodes[i].view)
  }

  lemma AddOne(nodes: seq<Node>, n: Node)
    requires Apart(nodes) && n.Repr !! Footprint(nodes)
    ensures Apart(nodes + [n]) && Footprint(nodes + [n]) == Footprint(nodes) + n.Repr
    ensures Views(nodes + [n]) == Views(nodes) + [n.view]
  {
    assert n in nodes + [n] && forall m :: m in nodes ==> m in nodes + [n];
    forall i | 0 <= i < |nodes| ensures nodes[i].Repr !! n.Repr {
      assert nodes[i].Repr <= Footprint(nodes);
    }
  }

  /**
   A node of a tree: the content is owned, and no node occurs twice.  The view is the tree it stands for; the footprint
   holds the nodes below it (and may keep nodes that were unlinked).
   */
  class Node {
    var kind: Kind
    var tag: string
    var value: string
    var content: seq<Node>
    ghost var Repr: set<Node>
    ghost var view: Tree

    ghost predicate Owns(child: Node)
      reads this, child
    {
      child in Repr && child.Repr <= Repr && this !in child.Repr
    }

    ghost predicate Shows()
      reads this, content
    {
      && view.kind == kind && view.tag == tag && view.value == value && |view.content| == |content|
      && forall i :: 0 <= i < |content| ==> view.content[i] == content[i].view
    }

    ghost predicate Valid()
      reads this, Repr
      ensures Valid() ==> this in Repr && view.kind == kind && |view.content| == |content|
      decreases Repr
    {
      && this in Repr
      && (forall i :: 0 <= i < |content| ==> content[i] in Repr && Owns(content[i]) && content[i].Valid())
      && Apart(content)
      && Shows()
    }

    lemma ContentShows(i: nat)
      requires Valid() && i < |content|
      ensures Owns(content[i]) && content[i].Valid()
      ensures view.content[i] == content[i].view && content[i].view.value == content[i].value
    {
    }

    /** A new node over given content. */
    constructor (kind: Kind, tag: string, value: string, content: seq<Node>)
      requires Apart(content) && forall i :: 0 <= i < |content| ==> content[i].Valid()
      ensures Valid() && fresh(this) && Repr == {this} + Footprint(content)
      ensures view == Tree(kind, tag, value, Views(content)) && this.content == content
    {
      this.kind, this.tag, this.value, this.content := kind, tag, value, content;
      Repr := {this} + Footprint(content);
      view := Tree(kind, tag, value, Views(content));
    }

    /** Overwriting a node with another one's fields takes over the other's content. */
    method Overwrite(other: Node)
      requires Valid() && other.Valid() && other.Repr !! Repr
      modifies this
      ensures Valid() && view == other.view && Repr == old(Repr) + other.Repr
    {
      kind, tag, value, content := other.kind, other.tag, other.value, other.content;
      Repr := Repr + other.Repr;
      view := other.view;
    }

    /** Links other content into a node that none of it reaches. */
    method Link(nodes: seq<Node>, ghost footprint: set<Node>, ghost views: seq<Tree>)
      requires this in Repr && Apart(nodes) && |views| == |nodes|
      requires forall i :: 0 <= i < |nodes| ==>
                 nodes[i].Valid() && this !in nodes[i].Repr && nodes[i].Repr <= footprint && views[i] == nodes[i].view
      modifies this
      ensures Valid() && content == nodes && Repr == old(Repr) + footprint
      ensures view == Tree(old(kind), old(tag), old(value), views)
    {
      assert forall i :: 0 <= i < |nodes| ==> nodes[i] in nodes[i].Repr;
      content := nodes;
      Repr := Repr + footprint;
      view := Tree(kind, tag, value, views);
      assert forall i :: 0 <= i < |nodes| ==> nodes[i].Valid() && Owns(nodes[i]);
      assert Apart(content);
    }

    method AppendEntry(key: Node, val: Node)
      requires Valid() && key.Valid() && val.Valid() && key.Repr !! Repr && val.Repr !! Repr && key.Repr !! val.Repr
      modifies this
      ensures Valid() && view == old(view).(content := old(view).content + [key.view, val.view])
      ensures Repr == old(Repr) + key.Repr + val.Repr && content == old(content) + [key, val]
    {
      Link(content + [key, val], Repr + key.Repr + val.Repr, view.content + [key.view, val.view]);
    }

    method PrependEntry(key: Node, val: Node)
      requires Valid() && key.Valid() && val.Valid() && key.Repr !! Repr && val.Repr !! Repr && key.Repr !! val.Repr
      modifies this
      ensures Valid() && view == old(view).(content := [key.view, val.view] + old(view).content)
      ensures Repr == old(Repr) + key.Repr + val.Repr
    {
      Link([key, val] + content, Repr + key.Repr + val.Repr, [key.view, val.view] + view.content);
    }

    method RemoveEntry(i: nat)
      requires Valid() && i + 1 < |content|
      modifies this
      ensures Valid() && view == old(view).(content := old(view).content[..i] + old(view).content[i + 2..])
      ensures Repr == old(Repr)
    {
      Link(content[..i] + content[i + 2..], Repr, view.content[..i] + view.content[i + 2..]);
    }

    /** A node that is valid but for not knowing what became of one node of its content. */
    ghost predicate Stale(at: nat)
      reads this, Repr, content, Footprint(content)
    {
      && this in Repr && at < |content| && content[at] in Repr && this !in content[at].Repr
      && (forall i :: 0 <= i < |content| ==> content[i].Valid() && (i != at ==> Owns(content[i])))
      && Apart(content)
      && view.kind == kind && view.tag == tag && view.value == value && |view.content| == |content|
      && forall i :: 0 <= i < |content| && i != at ==> view.content[i] == content[i].view
    }

    /** An edit inside one node of the content leaves the rest as it was. */
    twostate lemma BecomesStale(at: nat)
      requires old(Valid()) && at < |content| && unchanged(this)
      requires var child := content[at];
               && child.Valid() && fresh(child.Repr - old(child.Repr))
               && forall n :: n in old(Repr) && n !in old(child.Repr) ==> unchanged(n)
      ensures Stale(at)
    {
      forall i | 0 <= i < |content| && i != at
        ensures content[i].Valid() && Owns(content[i]) && unchanged(content[i]) && content[i].Repr !! content[at].Repr
      {
        assert old(content[i].Repr) !! old(content[at].Repr) && old(Owns(content[i]) && content[i].Valid());
        assert content[i] in old(content[i].Repr) && content[i] in old(Repr);
        assert unchanged(content[i]);
        assert forall n :: n in content[i].Repr ==> n in old(Repr) && n !in old(content[at].Repr);
      }
    }

    /** Brings the ghost state up to date after an edit inside one node of the content. */
    ghost method Refresh(at: nat)
      requires Stale(at)
      modifies this`Repr, this`view
      ensures Valid() && view == old(view).(content := old(view).content[at := content[at].view])
      ensures Repr == old(Repr) + content[at].Repr
    {
      Repr := Repr + content[at].Repr;
      view := view.(content := view.content[at := content[at].view]);
    }
  }
}
