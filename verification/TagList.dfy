/** The intrusive doubly linked list under the ready list, the wait lists and the free lists. */
module TagLists {
  import opened Wrappers

  class Tag {
    var prev: Tag?
    var next: Tag?

    constructor ()
      ensures prev == null && next == null
    {
      prev, next := null, null;
    }

    /** Takes the tag out of the list it is in; its own links stay. */
    method Detach(ghost list: TagList, ghost i: nat)
      requires prev != null && next != null
      requires list.Valid() && i < |list.tags| && list.tags[i] == this
      modifies list`tags, prev`next, next`prev
      ensures list.Valid() && list.tags == old(list.tags)[..i] + old(list.tags)[i + 1..]
    {
      ghost var was := list.Nodes();
      assert was[i + 1] == this && was[i].next == this && prev == was[i] && next == was[i + 2];
      prev.next := next;
      next.prev := prev;
      list.tags := list.tags[..i] + list.tags[i + 1..];
      ghost var now := list.Nodes();
      assert forall k :: 0 <= k <= i ==> now[k] == was[k];
      assert forall k :: i < k < |now| ==> now[k] == was[k + 1];
    }
  }

  class TagList {
    const head: Tag
    const tail: Tag
    /** The tags between the two sentinels, in order. */
    ghost var tags: seq<Tag>

    ghost function Nodes(): seq<Tag>
      reads this
    {
      [head] + tags + [tail]
    }

    /** Neighbours refer to each other, and no tag is there twice. */
    ghost predicate Valid()
      reads this, Nodes()
    {
      var nodes := Nodes();
      && (forall i, j :: 0 <= i < j < |nodes| ==> nodes[i] != nodes[j])
      && (forall i :: 0 <= i < |nodes| - 1 ==> nodes[i].next == nodes[i + 1] && nodes[i + 1].prev == nodes[i])
    }

    constructor ()
      ensures Valid() && tags == [] && fresh(head) && fresh(tail)
    {
      head := new Tag();
      tail := new Tag();
      tags := [];
      new;
      head.next := tail;
      tail.prev := head;
    }

    predicate IsEmpty()
      requires Valid()
      reads this, Nodes()
      ensures IsEmpty() <==> tags == []
    {
      assert Nodes()[0].next == Nodes()[1] && Nodes()[|tags| + 1] == tail;
      head.next == tail
    }

    /** Links `tag` in between its new neighbours; `last` is the one before. */
    method InsertBefore(before: Tag, tag: Tag, ghost last: Tag, ghost i: nat)
      requires Valid() && i <= |tags| && before == Nodes()[i + 1] && last == Nodes()[i] && tag !in Nodes()
      modifies this`tags, tag, before`prev, last`next
      ensures Valid() && tags == old(tags)[..i] + [tag] + old(tags)[i..]
    {
      ghost var was := Nodes();
      assert was[i].next == was[i + 1] && was[i + 1].prev == was[i];
      before.prev.next := tag;
      tag.prev := before.prev;
      tag.next := before;
      before.prev := tag;
      tags := tags[..i] + [tag] + tags[i..];
      ghost var now := Nodes();
      assert forall k :: 0 <= k <= i ==> now[k] == was[k];
      assert now[i + 1] == tag;
      assert forall k :: i + 1 < k < |now| ==> now[k] == was[k - 1];
    }

    method PushFront(tag: Tag)
      requires Valid() && tag !in Nodes()
      modifies this, tag, Nodes()
      ensures Valid() && tags == [tag] + old(tags)
    {
      assert Nodes()[0].next == Nodes()[1];
      InsertBefore(head.next, tag, head, 0);
    }

    method PushBack(tag: Tag)
      requires Valid() && tag !in Nodes()
      modifies this, tag, Nodes()
      ensures Valid() && tags == old(tags) + [tag]
    {
      assert Nodes()[|tags| + 1] == tail;
      InsertBefore(tail, tag, Nodes()[|tags|], |tags|);
    }

    method Pop() returns (top: Tag)
      requires Valid() && tags != []
      modifies this, Nodes()
      ensures Valid() && top == old(tags)[0] && tags == old(tags)[1..]
    {
      ghost var nodes := Nodes();
      assert nodes[0].next == nodes[1] == tags[0] && nodes[1].next == nodes[2] && nodes[1].prev == nodes[0];
      top := head.next;
      top.Detach(this, 0);
    }

    method Find(tag: Tag) returns (found: bool)
      requires Valid() && tag != tail
      ensures found <==> tag in tags
    {
      ghost var nodes, i := Nodes(), 1;
      assert nodes[0].next == nodes[1];
      var curr := head.next;
      while curr != tail
        invariant 1 <= i < |nodes| && curr == nodes[i]
        invariant forall k :: 1 <= k < i ==> nodes[k] != tag
        decreases |nodes| - i
      {
        assert curr == tags[i - 1] && nodes[i].next == nodes[i + 1];
        if curr == tag {
          return true;
        }
        curr := curr.next;
        i := i + 1;
      }
      assert i == |nodes| - 1 by {
        assert nodes[|nodes| - 1] == tail;
      }
      assert forall k :: 0 <= k < |tags| ==> tags[k] == nodes[k + 1];
      return false;
    }

    /** The first tag that the visitor accepts. */
    method FindIf(visitor: Tag -> bool) returns (r: Tag?)
      requires Valid()
      ensures r == null ==> forall t :: t in tags ==> !visitor(t)
      ensures r != null ==>
        exists i :: 0 <= i < |tags| && tags[i] == r && visitor(tags[i]) && forall k :: 0 <= k < i ==> !visitor(tags[k])
    {
      ghost var nodes, i := Nodes(), 1;
      assert nodes[0].next == nodes[1];
      var curr := head.next;
      while curr != tail
        invariant 1 <= i < |nodes| && curr == nodes[i]
        invariant forall k :: 0 <= k < i - 1 ==> !visitor(tags[k])
        decreases |nodes| - i
      {
        assert curr == tags[i - 1] && nodes[i].next == nodes[i + 1];
        if visitor(curr) {
          return curr;
        }
        curr := curr.next;
        i := i + 1;
      }
      assert i == |nodes| - 1 by {
        assert nodes[|nodes| - 1] == tail;
      }
      return null;
    }

    method GetSize() returns (len: nat)
      requires Valid()
      ensures len == |tags|
    {
      ghost var nodes := Nodes();
      assert nodes[0].next == nodes[1];
      len := 0;
      var curr := head.next;
      while curr != tail
        invariant len + 1 < |nodes| && curr == nodes[len + 1]
        decreases |nodes| - len
      {
        assert nodes[len + 1].next == nodes[len + 2];
        curr := curr.next;
        len := len + 1;
      }
      assert len + 1 == |nodes| - 1 by {
        assert nodes[|nodes| - 1] == tail;
      }
    }
  }

  /** Lists that share no node. */
  ghost predicate Apart(a: TagList, b: TagList)
    reads a, b
  {
    a != b && forall t :: t in a.Nodes() ==> t !in b.Nodes()
  }

  /** `Pop` does not show in a list that shares no node. */
  method PopApart(list: TagList, ghost other: TagList) returns (top: Tag)
    requires list.Valid() && other.Valid() && Apart(list, other) && list.tags != []
    modifies list, list.Nodes()
    ensures list.Valid() && top == old(list.tags)[0] && list.tags == old(list.tags)[1..] && top !in list.Nodes()
    ensures other.Valid() && other.tags == old(other.tags) && Apart(list, other) && top !in other.Nodes()
  {
    ghost var nodes, others := list.Nodes(), other.Nodes();
    assert nodes[1] == list.tags[0];
    assert forall i :: 0 <= i < |others| ==> others[i] in others && others[i] !in nodes;
    top := list.Pop();
    assert list.Nodes() == [nodes[0]] + nodes[2..];
    assert top in nodes && forall k :: 1 < k < |nodes| ==> nodes[k] != top;
    assert other.Nodes() == others;
    assert forall i :: 0 <= i < |others| ==>
      others[i].next == old(others[i].next) && others[i].prev == old(others[i].prev);
  }

  /** Nor does `PushFront`. */
  method PushFrontApart(list: TagList, tag: Tag, ghost other: TagList)
    requires list.Valid() && other.Valid() && Apart(list, other) && tag !in list.Nodes() && tag !in other.Nodes()
    modifies list, tag, list.Nodes()
    ensures list.Valid() && list.tags == [tag] + old(list.tags)
    ensures other.Valid() && other.tags == old(other.tags) && Apart(other, list)
  {
    ghost var nodes, others := list.Nodes(), other.Nodes();
    assert forall i :: 0 <= i < |others| ==> others[i] in others && others[i] !in nodes;
    list.PushFront(tag);
    assert other.Nodes() == others;
    assert forall i :: 0 <= i < |others| ==>
      others[i].next == old(others[i].next) && others[i].prev == old(others[i].prev);
    assert forall t :: t in list.Nodes() ==> t in nodes || t == tag;
  }

  /** The first tag of one list becomes the first of another one, as when a waiter is made ready. */
  method MoveFirst(from: TagList, to: TagList)
    requires from.Valid() && to.Valid() && Apart(from, to) && from.tags != []
    modifies from, to, from.Nodes(), to.Nodes()
    ensures from.Valid() && to.Valid() && Apart(from, to)
    ensures from.tags == old(from.tags)[1..] && to.tags == [old(from.tags)[0]] + old(to.tags)
  {
    assert from.Nodes()[1] == from.tags[0];
    var tag := PopApart(from, to);
    PushFrontApart(to, tag, from);
  }
}
