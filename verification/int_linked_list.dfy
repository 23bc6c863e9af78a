/** The two `int` copies of the singly linked list, ll/ll.cpp and
    LL/ll.cpp.

    Both are the algorithm of LL/linked_list.h with `T = int`, so they are
    the LinkedList model instantiated at `int`. They differ from it and from
    each other only where modelled here: LL/ll.cpp returns the head value,
    tail value and length from `getHead`, `getTail` and `getLength` (ll/ll.cpp
    prints them instead), and the general path of `deleteNode` subtracts one
    from the length in ll/ll.cpp but adds one in LL/ll.cpp (the `step`
    argument of LinkedList.DeleteNodeAsWritten).
 */
module IntLinkedList {
  import opened Chains
  import opened LinkedList

  type IntList = List<int>

  /** `getHead()` of LL/ll.cpp: the first value; on an empty list the
      source dereferences a null head. */
  function GetHead(l: IntList): (r: Outcome<int>)
    requires Valid(l)
    ensures r == NullDeref <==> l.length == 0
    ensures r.Done? ==> r.state == Contents(l)[0]
  {
    ValidShape(l);
    if l.head == Null then NullDeref else Done(l.heap[l.head.addr].value)
  }

  /** `getTail()` of LL/ll.cpp: the last value; on an empty list the
      source dereferences a null tail. */
  function GetTail(l: IntList): (r: Outcome<int>)
    requires Valid(l)
    ensures r == NullDeref <==> l.length == 0
    ensures r.Done? ==> r.state == Contents(l)[l.length - 1]
  {
    ValidShape(l);
    if l.tail == Null then NullDeref else Done(l.heap[l.tail.addr].value)
  }

  /** `getLength()` of LL/ll.cpp: the number of values held. */
  function GetLength(l: IntList): (n: int)
    requires Valid(l)
    ensures n == |Contents(l)|
  {
    l.length
  }

  /** `append` each of `vs` in turn, as the `main` drivers do. */
  function AppendAll<T>(l: List<T>, vs: seq<T>): (r: List<T>)
    requires Valid(l)
    ensures Valid(r)
    ensures Contents(r) == Contents(l) + vs
    decreases |vs|
  {
    if |vs| == 0 then l
    else
      var l1 := Append(l, vs[0]).state;
      var r := AppendAll(l1, vs[1..]);
      AppendStep(Contents(l), vs, Contents(l1), Contents(r));
      r
  }

  lemma {:induction false} AppendStep<T>(s0: seq<T>, vs: seq<T>, s1: seq<T>, s2: seq<T>)
    requires |vs| > 0 && s1 == s0 + [vs[0]] && s2 == s1 + vs[1..]
    ensures s2 == s0 + vs
  {
    assert [vs[0]] + vs[1..] == vs;
  }

  /** The list of both `main` functions: `{4}`, then `append` 5 to 12. */
  lemma {:induction false} MainList(vs: seq<int>)
    requires vs == [5, 6, 7, 8, 9, 10, 11, 12]
    ensures Contents(AppendAll(Create(4), vs)) == [4, 5, 6, 7, 8, 9, 10, 11, 12]
  {
  }

  /** The drivers print `middle: 8`: of the nine values 4..12, `middle()`
      finds the one at position 9 / 2 = 4. The head is 4, the tail 12 and
      the length 9. */
  lemma {:induction false} MainMiddle(l: IntList)
    requires Valid(l) && Contents(l) == [4, 5, 6, 7, 8, 9, 10, 11, 12]
    ensures var m := Middle(l);
            m != Null && l.heap[m.addr].value == 8
    ensures GetHead(l) == Done(4) && GetTail(l) == Done(12) && GetLength(l) == 9
  {
  }

  lemma {:induction false} DropFifth(s: seq<int>)
    requires s == [4, 5, 6, 7, 8, 9, 10, 11, 12]
    ensures s[..4] + s[5..] == [4, 5, 6, 7, 9, 10, 11, 12]
  {
    assert s[..4] == [4, 5, 6, 7];
    assert s[5..] == [9, 10, 11, 12];
  }

  /** The `deleteNode` of ll/ll.cpp subtracts one from the length and so
      removes an interior value correctly: deleting position 4 of
      `[4 .. 12]` drops the 8. */
  lemma {:induction false} MainDeleteNodeDecrement(l: IntList)
    requires Valid(l) && Contents(l) == [4, 5, 6, 7, 8, 9, 10, 11, 12]
    ensures DeleteNodeAsWritten(l, 4, Decrement) == Done(DeleteNode(l, 4))
    ensures Contents(DeleteNode(l, 4)) == [4, 5, 6, 7, 9, 10, 11, 12]
  {
    DeleteNodeAsWrittenDecrementInterior(l, 4);
    DropFifth(Contents(l));
  }

  /** The `deleteNode` of LL/ll.cpp adds one instead: the same deletion
      leaves eight reachable nodes under a recorded length of 10. */
  lemma {:induction false} MainDeleteNodeIncrement(l: IntList)
    requires Valid(l) && Contents(l) == [4, 5, 6, 7, 8, 9, 10, 11, 12]
    ensures var r := DeleteNodeAsWritten(l, 4, Increment);
            r.Done? && r.state.length == 10 && !Valid(r.state)
  {
    DeleteNodeAsWrittenIncrementBreaks(l, 4);
  }
}
