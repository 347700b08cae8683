/** The linked list that holds a program's statements. In the C program every
    node has a `next` link and the program node holds the head of the list;
    here a NodeCell is a heap node with its `next` link and the tree it roots,
    and a NodeList is the head pointer. */
module NodeLists {
  import opened Syntax

  /** mknode for a list member: a node whose `next` starts out null. */
  class NodeCell {
    const node: Node
    var next: NodeCell?

    constructor (n: Node)
      ensures node == n && next == null
    {
      node := n;
      next := null;
    }
  }

  class NodeList {
    var head: NodeCell?
    /** The cells of the list in link order. */
    ghost var spine: seq<NodeCell>
    ghost var Repr: set<object>

    /** The cells are linked in spine order from head, the last link is null,
        and the footprint holds every cell. */
    ghost predicate Valid()
      reads this, Repr
    {
      && this in Repr
      && (forall k :: 0 <= k < |spine| ==> spine[k] in Repr)
      && head == (if spine == [] then null else spine[0])
      && (forall i, j :: 0 <= i && j == i + 1 && j < |spine| ==> spine[i].next == spine[j])
      && (spine != [] ==> spine[|spine| - 1].next == null)
    }

    /** The nodes of the list, in order. */
    ghost function Contents(): seq<Node>
      reads this
    {
      var cells := spine;
      seq(|cells|, k requires 0 <= k < |cells| => cells[k].node)
    }

    /** A zero-initialised list head: the empty list. */
    constructor ()
      ensures Valid() && fresh(Repr) && Repr == {this}
      ensures Contents() == []
    {
      head := null;
      spine := [];
      Repr := {this};
    }

    /** append: walks to the last cell and links n after it; an empty list
        becomes n alone. */
    method Append(n: NodeCell)
      requires Valid()
      requires n !in Repr && n.next == null
      modifies Repr
      ensures Valid()
      ensures Repr == old(Repr) + {n}
      ensures spine == old(spine) + [n]
      ensures Contents() == old(Contents()) + [n.node]
    {
      if head == null {
        head := n;
      } else {
        var l := head;
        ghost var k := 0;
        while l.next != null
          invariant Valid()
          invariant 0 <= k < |spine| && l == spine[k]
          invariant k < |spine| - 1 ==> l.next == spine[k + 1]
          decreases |spine| - k
        {
          l := l.next;
          k := k + 1;
        }
        assert k == |spine| - 1;
        assert forall j :: 0 <= j < k ==> spine[j] != l by {
          forall j | 0 <= j < k ensures spine[j] != l {
            assert spine[j].next == spine[j + 1];
          }
        }
        l.next := n;
      }
      spine := spine + [n];
      Repr := Repr + {n};
    }

    /** eachnode(list, f): applies f to every node in list order; what the f
        calls produce is returned in that order. */
    method EachNode(f: Node -> string) returns (out: string)
      requires Valid()
      ensures out == ConcatMap(f, Contents())
    {
      out := "";
      var l := head;
      ghost var k := 0;
      while l != null
        invariant 0 <= k <= |spine|
        invariant l == if k < |spine| then spine[k] else null
        invariant out == ConcatMap(f, Contents()[..k])
        decreases |spine| - k
      {
        assert Contents()[..k + 1] == Contents()[..k] + [l.node];
        ConcatMapSnoc(f, Contents()[..k], l.node);
        out := out + f(l.node);
        l := l.next;
        k := k + 1;
      }
      assert Contents()[..k] == Contents();
    }
  }

  /** The results of f on ns, concatenated in order. */
  function ConcatMap(f: Node -> string, ns: seq<Node>): (r: string)
  {
    if ns == [] then "" else f(ns[0]) + ConcatMap(f, ns[1..])
  }

  lemma {:induction false} ConcatMapSnoc(f: Node -> string, ns: seq<Node>, n: Node)
    ensures ConcatMap(f, ns + [n]) == ConcatMap(f, ns) + f(n)
  {
    if ns != [] {
      assert (ns + [n])[1..] == ns[1..] + [n];
      ConcatMapSnoc(f, ns[1..], n);
    } else {
      assert [] + [n] == [n];
    }
  }
}
