/** The shared-pointer list `sjd::SmartLinkedList<T>`
    (LL/smart_linked_list.h), together with the checks its test driver
    (test/test_smart_linked_list.cpp) makes of it.

    Its state and invariant are those of the singly linked list: a heap of
    nodes, `m_head`, `m_tail` and `m_length`. Reference counting is not
    modelled; a node nobody points to is simply unreachable.
 */
module SmartLinkedList {
  import opened Chains
  import opened LinkedList

  /** `SmartLinkedList(value)`: a single node that is both begin and end. */
  function SmartCreate<T>(value: T): (l: List<T>)
    ensures Valid(l) && Contents(l) == [value] && l.length == 1
    ensures Begin(l) == End(l) && Begin(l) != Null
  {
    Create(value)
  }

  /** `begin()`: the head, null exactly on an empty list; otherwise the
      node holding the first value. */
  function Begin<T>(l: List<T>): (p: Ptr)
    requires Valid(l)
    ensures p == Null <==> l.length == 0
    ensures p != Null ==> p.addr < |l.heap| && l.heap[p.addr].value == Contents(l)[0]
  {
    ValidShape(l);
    l.head
  }

  /** `end()`: the tail, null exactly on an empty list; otherwise the node
      holding the last value, whose `next` is null. */
  function End<T>(l: List<T>): (p: Ptr)
    requires Valid(l)
    ensures p == Null <==> l.length == 0
    ensures p != Null ==> p.addr < |l.heap| && l.heap[p.addr].value == Contents(l)[l.length - 1]
    ensures p != Null ==> l.heap[p.addr].next == Null
  {
    ValidShape(l);
    l.tail
  }

  /** `length()`: the number of values held. */
  function Length<T>(l: List<T>): (n: int)
    requires Valid(l)
    ensures n == |Contents(l)| && n >= 0
  {
    l.length
  }

  /** `append(value)`: always true; the value goes after the end. */
  function SmartAppend<T>(l: List<T>, value: T): (r: Ack<List<T>>)
    requires Valid(l)
    ensures r.ok && Valid(r.state) && Contents(r.state) == Contents(l) + [value]
    ensures Length(r.state) == Length(l) + 1
    ensures l.length > 0 ==> Begin(r.state) == Begin(l)
  {
    Append(l, value)
  }

  /** `prepend(value)`: always true; on an empty list it returns what
      `append(value)` returns, otherwise a new node pointing at the old
      head becomes the head. */
  function SmartPrepend<T>(l: List<T>, value: T): (r: Ack<List<T>>)
    requires Valid(l)
    ensures r.ok && Valid(r.state) && Contents(r.state) == [value] + Contents(l)
    ensures Length(r.state) == Length(l) + 1
    ensures l.length > 0 ==> End(r.state) == End(l)
  {
    if l.length == 0 then SmartAppend(l, value)
    else Ack(true, Prepend(l, value))
  }

  /** On an empty list the delegation to `append` builds the same list as
      the general path would: one node, length 1 (the length is raised
      once, not twice). */
  lemma {:induction false} SmartPrependEmpty<T>(l: List<T>, value: T)
    requires Valid(l) && l.length == 0
    ensures SmartPrepend(l, value).state == Prepend(l, value)
    ensures SmartPrepend(l, value).state.length == 1
  {
  }

  /** The integers `lo, lo + 1, ..., hi - 1`. */
  function Range(lo: int, hi: int): (s: seq<int>)
    requires lo <= hi
    ensures |s| == hi - lo
    ensures forall k :: 0 <= k < |s| ==> s[k] == lo + k
  {
    seq(hi - lo, k requires 0 <= k < hi - lo => lo + k)
  }

  /** `isValidLL(ll)`: on an empty list begin and end must be null;
      otherwise a tortoise and a hare (one and two steps at a time) walk the
      list from begin until the hare reaches the end or null, and the walk
      fails if they ever meet. On every Valid list it succeeds, and the
      hare's double step never dereferences null. */
  method IsValidLL<T>(l: List<T>) returns (ok: bool)
    requires Valid(l)
    ensures ok
  {
    if Length(l) == 0 {
      return Begin(l) == Null && End(l) == Null;
    }
    var sp := Spine(l);
    var len := l.length;
    ChainNext(l.heap, sp, 0);
    var tortoise := Begin(l);
    var hare := l.heap[tortoise.addr].next;
    var k := 0;
    while hare != End(l) && hare != Null
      invariant 0 <= k < len && 2 * k + 1 <= len
      invariant tortoise == At(sp[k]) && hare == PtrAt(sp, 2 * k + 1)
      decreases len - k
    {
      ChainDistinct(l.heap, sp, 2 * k + 1, len - 1);
      ChainDistinct(l.heap, sp, k, 2 * k + 1);
      if tortoise == hare {
        return false;
      }
      ChainNext(l.heap, sp, k);
      ChainNext(l.heap, sp, 2 * k + 1);
      ChainNext(l.heap, sp, 2 * k + 2);
      tortoise := l.heap[tortoise.addr].next;
      var step := l.heap[hare.addr].next;
      hare := l.heap[step.addr].next;
      k := k + 1;
    }
    return true;
  }

  /** `testappend<reps>()`: append `1..reps` to `{0}`; begin then holds 0,
      end holds `reps`, the length is `reps + 1` and the list passes
      `isValidLL`. */
  method TestAppend(reps: int) returns (passed: bool, l: List<int>)
    requires reps > 0
    ensures passed && Valid(l) && Contents(l) == Range(0, reps + 1)
  {
    var i := 1;
    l := SmartCreate(0);
    while i <= reps
      invariant 1 <= i <= reps + 1
      invariant Valid(l) && Contents(l) == Range(0, i)
    {
      l := SmartAppend(l, i).state;
      i := i + 1;
    }
    var b := Begin(l);
    var e := End(l);
    if l.heap[b.addr].value != 0 || l.heap[e.addr].value != reps || Length(l) != reps + 1 {
      return false, l;
    }
    passed := IsValidLL(l);
  }

  /** `testprepend<reps>()`: prepend `1..reps` to `{0}`; begin then holds
      `reps`, end holds 0, the length is `reps + 1` and the list passes
      `isValidLL`. */
  method TestPrepend(reps: int) returns (passed: bool, l: List<int>)
    requires reps > 0
    ensures passed && Valid(l) && |Contents(l)| == reps + 1
    ensures forall k :: 0 <= k <= reps ==> Contents(l)[k] == reps - k
  {
    var i := 1;
    l := SmartCreate(0);
    while i <= reps
      invariant 1 <= i <= reps + 1
      invariant Valid(l) && |Contents(l)| == i
      invariant forall k :: 0 <= k < i ==> Contents(l)[k] == i - 1 - k
    {
      l := SmartPrepend(l, i).state;
      i := i + 1;
    }
    var b := Begin(l);
    var e := End(l);
    if l.heap[b.addr].value != reps || l.heap[e.addr].value != 0 || Length(l) != reps + 1 {
      return false, l;
    }
    passed := IsValidLL(l);
  }
}
