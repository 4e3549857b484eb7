/**
 * CWList: a singly linked list reached through its first element.
 * Elements are added at the head.
 */
module LinkedList {
  import opened Wrappers

  class ListElement<T> {
    const data: T
    var next: ListElement?<T>

    constructor (data: T, next: ListElement?<T>)
      ensures this.data == data && this.next == next
    {
      this.data := data;
      this.next := next;
    }
  }

  class List<T> {
    var head: ListElement?<T>
    ghost var spine: seq<ListElement<T>>

    ghost predicate Valid()
      reads this, spine
    {
      && head == At(0)
      && (forall i :: 0 <= i < |spine| ==> spine[i].next == At(i + 1))
    }

    /** The element at position i, null behind the last one */
    ghost function At(i: nat): ListElement?<T>
      reads this
    {
      if i < |spine| then spine[i] else null
    }

    ghost function Contents(): (s: seq<T>)
      reads this
      ensures |s| == |spine| && forall i :: 0 <= i < |s| ==> s[i] == spine[i].data
    {
      DataOf(spine)
    }

    static ghost function DataOf(es: seq<ListElement<T>>): (s: seq<T>)
      ensures |s| == |es| && forall i :: 0 <= i < |s| ==> s[i] == es[i].data
    {
      if es == [] then [] else [es[0].data] + DataOf(es[1..])
    }

    constructor ()
      ensures Valid() && Contents() == []
    {
      head := null;
      spine := [];
    }

    /** CWAddElementToList */
    method AddElement(x: T)
      requires Valid()
      modifies this
      ensures Valid() && Contents() == [x] + old(Contents())
    {
      ghost var rest := spine;
      var first := new ListElement(x, head);
      head, spine := first, [first] + rest;
      assert spine[1..] == rest;
      forall i | 0 <= i < |spine| ensures spine[i].next == At(i + 1) {
        if i > 0 { assert spine[i] == rest[i - 1]; }
      }
    }

    /** CWSearchInList: the first element that compares equal */
    method Search(compare: T -> bool) returns (found: Option<T>)
      requires Valid()
      ensures match found
              case None => forall x <- Contents() :: !compare(x)
              case Some(x) => exists i :: 0 <= i < |Contents()| && Contents()[i] == x && compare(x)
                                          && forall j :: 0 <= j < i ==> !compare(Contents()[j])
    {
      var el := head;
      ghost var i := 0;
      while el != null
        invariant i <= |spine| && el == At(i)
        invariant forall j :: 0 <= j < i ==> !compare(Contents()[j])
        decreases |spine| - i
      {
        if compare(el.data) {
          assert Contents()[i] == el.data;
          return Some(el.data);
        }
        el, i := el.next, i + 1;
      }
      return None;
    }

    /** CWDeleteList: takes the elements off one by one */
    method DeleteList()
      requires Valid()
      modifies this
      ensures Valid() && Contents() == []
    {
      while head != null
        invariant Valid()
        decreases |spine|
      {
        ghost var rest := spine[1..];
        assert forall i :: 0 <= i < |rest| ==> rest[i] == spine[i + 1];
        head := head.next;
        spine := rest;
      }
    }
  }
}
