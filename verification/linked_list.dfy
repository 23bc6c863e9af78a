/** The generic singly linked list `LinkedList<T>` (LL/linked_list.h).

    State: the heap of nodes, `m_head`, `m_tail` and `m_length`. The list is
    Valid when following `next` from the head for `m_length` steps visits
    exactly `m_length` distinct nodes, the last of which is the tail and has a
    null `next`. Its Contents are the values along that walk.

    Every operation is a pure function from the state before the call to the
    state after it; a method's `bool` or `Node*` result is returned alongside
    the new state.
 */
module LinkedList {
  import opened Chains

  datatype List<T> = List(heap: Heap<T>, head: Ptr, tail: Ptr, length: int)

  /** The addresses reached from the head in `length` steps. */
  function Spine<T>(l: List<T>): seq<nat> {
    if l.length < 0 then [] else Walk(l.heap, l.head, l.length)
  }

  /** The class invariant every public operation keeps. */
  predicate Valid<T>(l: List<T>) {
    && l.length >= 0
    && |Spine(l)| == l.length
    && Chain(l.heap, Spine(l))
    && l.head == PtrAt(Spine(l), 0)
    && l.tail == Last(Spine(l))
  }

  /** The sequence of values the list holds, head first. */
  function Contents<T>(l: List<T>): seq<T>
    requires Valid(l)
  {
    Values(l.heap, Spine(l))
  }

  /** A state whose head, tail and length frame a well-formed chain is Valid,
      and that chain is its spine. */
  lemma {:induction false} Establish<T>(l: List<T>, sp: seq<nat>)
    requires Chain(l.heap, sp)
    requires l.length == |sp| && l.head == PtrAt(sp, 0) && l.tail == Last(sp)
    ensures Valid(l) && Spine(l) == sp
  {
    WalkChain(l.heap, sp, 0, |sp|);
  }

  /** The shape invariants: head and tail are null exactly when the list is
      empty, the tail's `next` is null, and head and tail hold the first and
      last values. */
  lemma {:induction false} ValidShape<T>(l: List<T>)
    requires Valid(l)
    ensures l.head == Null <==> l.length == 0
    ensures l.tail == Null <==> l.length == 0
    ensures l.length > 0 ==> l.tail.addr < |l.heap| && l.heap[l.tail.addr].next == Null
    ensures l.length > 0 ==> l.heap[l.head.addr].value == Contents(l)[0]
    ensures l.length > 0 ==> l.heap[l.tail.addr].value == Contents(l)[l.length - 1]
    ensures l.length == 1 ==> l.head == l.tail
  {
    if l.length > 0 {
      ChainNext(l.heap, Spine(l), l.length - 1);
    }
  }

  /** `LinkedList(value)`: one node, both head and tail. */
  function Create<T>(value: T): (l: List<T>)
    ensures Valid(l) && Contents(l) == [value]
    ensures l.head == l.tail && l.head != Null && l.length == 1
  {
    var l := List([Node(value, Null)], At(0), At(0), 1);
    Establish(l, [0]);
    l
  }

  /** `append(value)`: link a new node after the tail (or make it the only
      node of an empty list). Always returns true. */
  function Append<T>(l: List<T>, value: T): (r: Ack<List<T>>)
    requires Valid(l)
    ensures r.ok
    ensures Valid(r.state) && Contents(r.state) == Contents(l) + [value]
    ensures r.state.length == l.length + 1
    ensures Spine(r.state) == Spine(l) + [|l.heap|]
    ensures r.state.tail == At(|l.heap|) && r.state.heap[|l.heap|].value == value
    ensures l.length > 0 ==> r.state.head == l.head
  {
    var n := |l.heap|;
    var sp := Spine(l);
    if l.length == 0 then
      var l' := List(l.heap + [Node(value, Null)], At(n), At(n), l.length + 1);
      Establish(l', [n]);
      Ack(true, l')
    else
      var h := l.heap[l.tail.addr := l.heap[l.tail.addr].(next := At(n))] + [Node(value, Null)];
      var l' := List(h, l.head, At(n), l.length + 1);
      AppendChain(l.heap, sp, value);
      Establish(l', sp + [n]);
      Ack(true, l')
  }

  lemma {:induction false} AppendChain<T>(h: Heap<T>, sp: seq<nat>, value: T)
    requires Chain(h, sp) && |sp| > 0
    ensures var t := sp[|sp| - 1];
            var h' := h[t := h[t].(next := At(|h|))] + [Node(value, Null)];
            Chain(h', sp + [|h|]) && Values(h', sp + [|h|]) == Values(h, sp) + [value]
  {
    var n := |h|;
    var t := sp[|sp| - 1];
    var h' := h[t := h[t].(next := At(n))] + [Node(value, Null)];
    var sp' := sp + [n];
    ChainIff(h, sp);
    forall i | 0 <= i < |sp'|
      ensures sp'[i] < |h'| && h'[sp'[i]].next == PtrAt(sp', i + 1)
    {
      if i < |sp| - 1 {
        assert sp[i] != t;
      }
    }
    DistinctInsert(sp, |sp|, n);
    assert sp' == sp[..|sp|] + [n] + sp[|sp|..];
    FactsGiveChain(h', sp');
    assert Values(h', sp') == Values(h, sp) + [value];
  }

  /** `prepend(value)`: a new node pointing at the old head becomes the
      head; on an empty list it is the tail as well. */
  function Prepend<T>(l: List<T>, value: T): (r: List<T>)
    requires Valid(l)
    ensures Valid(r) && Contents(r) == [value] + Contents(l)
    ensures r.length == l.length + 1
    ensures Spine(r) == [|l.heap|] + Spine(l)
    ensures r.head == At(|l.heap|)
    ensures l.length == 0 ==> r.tail == r.head
    ensures l.length > 0 ==> r.tail == l.tail
  {
    var n := |l.heap|;
    var sp := Spine(l);
    var r := List(l.heap + [Node(value, l.head)], At(n), if l.length == 0 then At(n) else l.tail, l.length + 1);
    PrependChain(l.heap, sp, value);
    Establish(r, [n] + sp);
    r
  }

  lemma {:induction false} PrependChain<T>(h: Heap<T>, sp: seq<nat>, value: T)
    requires Chain(h, sp)
    ensures var h' := h + [Node(value, PtrAt(sp, 0))];
            Chain(h', [|h|] + sp) && Values(h', [|h|] + sp) == [value] + Values(h, sp)
  {
    var n := |h|;
    var h' := h + [Node(value, PtrAt(sp, 0))];
    var sp' := [n] + sp;
    assert sp' == sp[..0] + [n] + sp[0..];
    ChainIff(h, sp);
    PrependLinked(h, sp, h'[n]);
    DistinctInsert(sp, 0, n);
    FactsGiveChain(h', sp');
    ValuesInsert(h, h', sp, 0, n);
  }

  lemma {:induction false} PrependLinked<T>(h: Heap<T>, sp: seq<nat>, x: Node<T>)
    requires ChainFacts(h, sp) && x.next == PtrAt(sp, 0)
    ensures InHeap(h + [x], [|h|] + sp) && Linked(h + [x], [|h|] + sp)
  {
    var n := |h|;
    var h' := h + [x];
    var sp' := [n] + sp;
    forall i | 0 <= i < |sp'|
      ensures sp'[i] < |h'| && h'[sp'[i]].next == PtrAt(sp', i + 1)
    {
      if i + 1 < |sp'| {
        assert sp'[i + 1] == sp[i];
      }
      if i > 0 {
        assert sp'[i] == sp[i - 1];
        assert h'[sp[i - 1]] == h[sp[i - 1]];
        assert h[sp[i - 1]].next == PtrAt(sp, i);
      }
    }
  }

  /** `deleteFirst()`: no-op on an empty list; otherwise the head's
      successor becomes the head, and a singleton list becomes empty. */
  function DeleteFirst<T>(l: List<T>): (r: List<T>)
    requires Valid(l)
    ensures Valid(r)
    ensures l.length == 0 ==> r == l
    ensures l.length > 0 ==> Contents(r) == Contents(l)[1..] && r.length == l.length - 1
    ensures l.length > 0 ==> Spine(r) == Spine(l)[1..]
    ensures l.length == 1 ==> r.head == Null && r.tail == Null
  {
    var sp := Spine(l);
    if l.length == 0 then l
    else if l.length == 1 then
      var r := List(l.heap, Null, Null, 0);
      Establish(r, []);
      r
    else
      var r := List(l.heap, l.heap[l.head.addr].next, l.tail, l.length - 1);
      ChainSuffix(l.heap, sp);
      assert l.head == At(sp[0]);
      assert l.heap[sp[0]].next == PtrAt(sp, 1);
      assert r.head == PtrAt(sp[1..], 0);
      assert r.tail == Last(sp[1..]);
      Establish(r, sp[1..]);
      r
  }

  /** The loop `while (temp->next != m_tail) temp = temp->next;`, entered
      with `temp` at position `j`: it stops at the second-to-last node. */
  function SeekPenultimate<T>(l: List<T>, temp: Ptr, j: nat): (p: Ptr)
    requires Valid(l) && 2 <= l.length && j <= l.length - 2
    requires temp == At(Spine(l)[j])
    ensures p == At(Spine(l)[l.length - 2])
    decreases l.length - j
  {
    var sp := Spine(l);
    ChainNext(l.heap, sp, j);
    ChainDistinct(l.heap, sp, j + 1, l.length - 1);
    var next := l.heap[temp.addr].next;
    assert next == At(sp[j + 1]);
    if next == l.tail then temp
    else SeekPenultimate(l, next, j + 1)
  }

  /** `deleteLast()`: no-op on an empty list; a singleton becomes empty;
      otherwise the second-to-last node becomes the tail with null `next`. */
  function DeleteLast<T>(l: List<T>): (r: List<T>)
    requires Valid(l)
    ensures Valid(r)
    ensures l.length == 0 ==> r == l
    ensures l.length > 0 ==> Contents(r) == Contents(l)[..l.length - 1] && r.length == l.length - 1
    ensures l.length > 0 ==> Spine(r) == Spine(l)[..l.length - 1]
    ensures l.length > 1 ==> r.head == l.head
  {
    var sp := Spine(l);
    if l.length == 0 then l
    else if l.length == 1 then
      var r := List(l.heap, Null, Null, 0);
      Establish(r, []);
      r
    else
      var temp := SeekPenultimate(l, l.head, 0);
      var h := l.heap[temp.addr := l.heap[temp.addr].(next := Null)];
      var r := List(h, l.head, temp, l.length - 1);
      DeleteLastChain(l.heap, sp);
      Establish(r, sp[..l.length - 1]);
      r
  }

  lemma {:induction false} DeleteLastChain<T>(h: Heap<T>, sp: seq<nat>)
    requires Chain(h, sp) && |sp| >= 2
    ensures var p := sp[|sp| - 2];
            var h' := h[p := h[p].(next := Null)];
            Chain(h', sp[..|sp| - 1]) && Values(h', sp[..|sp| - 1]) == Values(h, sp)[..|sp| - 1]
  {
    var p := sp[|sp| - 2];
    var h' := h[p := h[p].(next := Null)];
    var sp' := sp[..|sp| - 1];
    ChainIff(h, sp);
    forall i | 0 <= i < |sp'|
      ensures sp'[i] < |h'| && h'[sp'[i]].next == PtrAt(sp', i + 1)
    {
      assert sp'[i] == sp[i];
      if i < |sp'| - 1 {
        assert sp[i] != p;
        assert sp'[i + 1] == sp[i + 1];
      }
    }
    DistinctRemove(sp, |sp| - 1);
    assert sp[..|sp| - 1] + sp[|sp|..] == sp';
    FactsGiveChain(h', sp');
    ValuesRemove(h, h', sp, |sp| - 1);
  }

  /** `get(index)`: null outside `[0, length)`, otherwise the node reached
      from the head after `index` steps, which holds `Contents[index]`. */
  function Get<T>(l: List<T>, index: int): (p: Ptr)
    requires Valid(l)
    ensures p == Null <==> !(0 <= index < l.length)
    ensures 0 <= index < l.length ==> p == At(Spine(l)[index])
    ensures 0 <= index < l.length ==> p.addr < |l.heap| && l.heap[p.addr].value == Contents(l)[index]
  {
    if index < 0 || index >= l.length then Null
    else
      var sp := Spine(l);
      AdvanceChain(l.heap, sp, 0, index);
      assert Contents(l)[index] == l.heap[sp[index]].value;
      Advance(l.heap, l.head, index)
  }

  /** `set(index, value)`: false and no change outside `[0, length)`;
      otherwise only position `index` changes. */
  function Set<T>(l: List<T>, index: int, value: T): (r: Ack<List<T>>)
    requires Valid(l)
    ensures r.ok <==> 0 <= index < l.length
    ensures !r.ok ==> r.state == l
    ensures r.ok ==> Valid(r.state) && Contents(r.state) == Contents(l)[index := value]
    ensures r.ok ==> Spine(r.state) == Spine(l) && r.state.head == l.head && r.state.tail == l.tail
  {
    var temp := Get(l, index);
    if temp != Null then
      var sp := Spine(l);
      var h := l.heap[temp.addr := l.heap[temp.addr].(value := value)];
      var r := List(h, l.head, l.tail, l.length);
      SetChain(l.heap, sp, index, value);
      Establish(r, sp);
      Ack(true, r)
    else
      Ack(false, l)
  }

  lemma {:induction false} SetChain<T>(h: Heap<T>, sp: seq<nat>, index: nat, value: T)
    requires Chain(h, sp) && index < |sp|
    ensures var h' := h[sp[index] := h[sp[index]].(value := value)];
            Chain(h', sp) && Values(h', sp) == Values(h, sp)[index := value]
  {
    var h' := h[sp[index] := h[sp[index]].(value := value)];
    ChainIff(h, sp);
    forall i | 0 <= i < |sp|
      ensures sp[i] < |h'| && h'[sp[i]].next == h[sp[i]].next
    {
    }
    FactsGiveChain(h', sp);
    assert Values(h', sp) == Values(h, sp)[index := value];
  }

  /** `insert(index, value)`: false and no change outside `[0, length]`;
      index 0 prepends, index `length` appends, and otherwise a new node is
      spliced after the node at `index - 1`. */
  function Insert<T>(l: List<T>, index: int, value: T): (r: Ack<List<T>>)
    requires Valid(l)
    ensures r.ok <==> 0 <= index <= l.length
    ensures !r.ok ==> r.state == l
    ensures r.ok ==> Valid(r.state) && r.state.length == l.length + 1
    ensures r.ok ==> Contents(r.state) == Contents(l)[..index] + [value] + Contents(l)[index..]
  {
    if index < 0 || index > l.length then Ack(false, l)
    else if index == 0 then
      InsertAtEnds(Contents(l), value);
      Ack(true, Prepend(l, value))
    else if index == l.length then
      InsertAtEnds(Contents(l), value);
      Append(l, value)
    else
      Ack(true, SpliceAfter(l, index, value))
  }

  /** The general path of `insert`: a new node is linked in after the node
      at `index - 1`, which `get` finds. */
  function SpliceAfter<T>(l: List<T>, index: int, value: T): (r: List<T>)
    requires Valid(l) && 0 < index < l.length
    ensures Valid(r) && r.length == l.length + 1
    ensures Contents(r) == Contents(l)[..index] + [value] + Contents(l)[index..]
  {
    var n := |l.heap|;
    var sp := Spine(l);
    var temp := Get(l, index - 1);
    var newNode := Node(value, l.heap[temp.addr].next);
    var h := l.heap[temp.addr := l.heap[temp.addr].(next := At(n))] + [newNode];
    var r := List(h, l.head, l.tail, l.length + 1);
    InsertChain(l.heap, sp, index, value);
    Establish(r, sp[..index] + [n] + sp[index..]);
    r
  }

  lemma {:induction false} InsertChain<T>(h: Heap<T>, sp: seq<nat>, index: nat, value: T)
    requires Chain(h, sp) && 0 < index < |sp|
    ensures var p := sp[index - 1];
            var h' := h[p := h[p].(next := At(|h|))] + [Node(value, h[p].next)];
            var sp' := sp[..index] + [|h|] + sp[index..];
            Chain(h', sp') && Values(h', sp') == Values(h, sp)[..index] + [value] + Values(h, sp)[index..]
  {
    var n := |h|;
    var p := sp[index - 1];
    var h' := h[p := h[p].(next := At(n))] + [Node(value, h[p].next)];
    var sp' := sp[..index] + [n] + sp[index..];
    ChainIff(h, sp);
    InsertLinked(h, sp, index, value);
    DistinctInsert(sp, index, n);
    FactsGiveChain(h', sp');
    ValuesInsert(h, h', sp, index, n);
  }

  lemma {:induction false} InsertLinked<T>(h: Heap<T>, sp: seq<nat>, index: nat, value: T)
    requires ChainFacts(h, sp) && 0 < index < |sp|
    ensures var p := sp[index - 1];
            var h' := h[p := h[p].(next := At(|h|))] + [Node(value, h[p].next)];
            var sp' := sp[..index] + [|h|] + sp[index..];
            InHeap(h', sp') && Linked(h', sp')
  {
    var n := |h|;
    var p := sp[index - 1];
    var h' := h[p := h[p].(next := At(n))] + [Node(value, h[p].next)];
    var sp' := sp[..index] + [n] + sp[index..];
    forall i | 0 <= i < |sp'|
      ensures sp'[i] < |h'| && h'[sp'[i]].next == PtrAt(sp', i + 1)
    {
      if i < index - 1 {
        assert sp'[i] == sp[i] && sp[i] != p;
        assert sp'[i + 1] == sp[i + 1];
      } else if i == index - 1 {
        assert sp'[i] == p;
      } else if i == index {
        assert sp'[i] == n;
        assert sp'[i + 1] == sp[index];
      } else {
        assert sp'[i] == sp[i - 1] && sp[i - 1] != p;
        if i + 1 < |sp'| {
          assert sp'[i + 1] == sp[i];
        }
      }
    }
  }

  /** `deleteNode(index)` with mutually exclusive branches: no change outside
      `[0, length)`; index 0 deletes the first node, index `length - 1` the
      last, and otherwise the node is unlinked from its predecessor. */
  function DeleteNode<T>(l: List<T>, index: int): (r: List<T>)
    requires Valid(l)
    ensures Valid(r)
    ensures !(0 <= index < l.length) ==> r == l
    ensures 0 <= index < l.length ==> r.length == l.length - 1
    ensures 0 <= index < l.length ==> Contents(r) == Contents(l)[..index] + Contents(l)[index + 1..]
  {
    if index < 0 || index >= l.length then l
    else if index == 0 then
      RemoveAtEnds(Contents(l));
      DeleteFirst(l)
    else if index == l.length - 1 then
      RemoveAtEnds(Contents(l));
      DeleteLast(l)
    else Unlink(l, index)
  }

  /** The general path of `deleteNode`: the predecessor found by `get` is
      linked past the node at `index`. */
  function Unlink<T>(l: List<T>, index: int): (r: List<T>)
    requires Valid(l) && 0 < index < l.length - 1
    ensures Valid(r) && r.length == l.length - 1
    ensures Contents(r) == Contents(l)[..index] + Contents(l)[index + 1..]
  {
    var sp := Spine(l);
    var prev := Get(l, index - 1);
    ChainNext(l.heap, sp, index - 1);
    var temp := l.heap[prev.addr].next;
    assert temp == At(sp[index]);
    var h := l.heap[prev.addr := l.heap[prev.addr].(next := l.heap[temp.addr].next)];
    var r := List(h, l.head, l.tail, l.length - 1);
    UnlinkChain(l.heap, sp, index);
    Establish(r, sp[..index] + sp[index + 1..]);
    r
  }

  lemma {:induction false} UnlinkChain<T>(h: Heap<T>, sp: seq<nat>, index: nat)
    requires Chain(h, sp) && 0 < index < |sp| - 1
    ensures var p := sp[index - 1];
            var h' := h[p := h[p].(next := h[sp[index]].next)];
            var sp' := sp[..index] + sp[index + 1..];
            Chain(h', sp') && Values(h', sp') == Values(h, sp)[..index] + Values(h, sp)[index + 1..]
  {
    var p := sp[index - 1];
    var h' := h[p := h[p].(next := h[sp[index]].next)];
    var sp' := sp[..index] + sp[index + 1..];
    ChainIff(h, sp);
    InHeapRemove(h', sp, index);
    forall i | 0 <= i < |sp'|
      ensures h'[sp'[i]].next == PtrAt(sp', i + 1)
    {
      if i < index - 1 {
        assert sp'[i] == sp[i] && sp[i] != p;
        assert sp'[i + 1] == sp[i + 1];
      } else if i == index - 1 {
        assert sp'[i] == p;
        assert sp'[i + 1] == sp[index + 1];
      } else {
        assert sp'[i] == sp[i + 1] && sp[i + 1] != p;
        if i + 1 < |sp'| {
          assert sp'[i + 1] == sp[i + 2];
        }
      }
    }
    DistinctRemove(sp, index);
    FactsGiveChain(h', sp');
    ValuesRemove(h, h', sp, index);
  }

  /** How the source's `deleteNode` adjusts `m_length` on its general path:
      LL/linked_list.h and LL/ll.cpp add one, ll/ll.cpp subtracts one. */
  datatype LengthStep = Increment | Decrement

  /** `deleteNode(index)` as the source writes it: the head and tail fast
      paths do not return, so control always reaches the general path,
      which then dereferences `get(index - 1)` and its `next`. */
  function DeleteNodeAsWritten<T>(l: List<T>, index: int, step: LengthStep): (r: Outcome<List<T>>)
    requires Valid(l)
    ensures r == NullDeref <==> 0 <= index < l.length && (index == 0 || index == l.length - 1)
    ensures !(0 <= index < l.length) ==> r == Done(l)
    ensures r.Done? && 0 <= index < l.length ==>
              r.state.length == (if step == Increment then l.length + 1 else l.length - 1)
  {
    if index < 0 || index >= l.length then Done(l)
    else
      var l1 := if index == 0 then DeleteFirst(l) else l;
      var l2 := if index == l1.length - 1 then DeleteLast(l1) else l1;
      var prev := Get(l2, index - 1);
      if prev == Null then NullDeref
      else
        ChainNext(l2.heap, Spine(l2), index - 1);
        var temp := l2.heap[prev.addr].next;
        assert temp == PtrAt(Spine(l2), index);
        if temp == Null then NullDeref
        else
          var h := l2.heap[prev.addr := l2.heap[prev.addr].(next := l2.heap[temp.addr].next)];
          var length := if step == Increment then l2.length + 1 else l2.length - 1;
          Done(List(h, l2.head, l2.tail, length))
  }

  /** Deleting the first or the last node through the source's `deleteNode`
      always ends in a null dereference. */
  lemma {:induction false} DeleteNodeAsWrittenEndsFail<T>(l: List<T>, index: int, step: LengthStep)
    requires Valid(l) && 0 <= index < l.length
    requires index == 0 || index == l.length - 1
    ensures DeleteNodeAsWritten(l, index, step) == NullDeref
  {
  }

  /** On an interior index, the source's general path with a decrement (as
      in ll/ll.cpp) is exactly the corrected `DeleteNode`. */
  lemma {:induction false} DeleteNodeAsWrittenDecrementInterior<T>(l: List<T>, index: int)
    requires Valid(l) && 0 < index < l.length - 1
    ensures DeleteNodeAsWritten(l, index, Decrement) == Done(DeleteNode(l, index))
  {
    var sp := Spine(l);
    var prev := Get(l, index - 1);
    ChainNext(l.heap, sp, index - 1);
    assert prev != Null && l.heap[prev.addr].next == At(sp[index]);
    assert DeleteNode(l, index) == Unlink(l, index);
  }

  /** On an interior index, the general path with an increment (as in
      LL/linked_list.h and LL/ll.cpp) unlinks the node but records a length
      two greater than the number of reachable nodes, so the result is not
      a Valid list. */
  lemma {:induction false} DeleteNodeAsWrittenIncrementBreaks<T>(l: List<T>, index: int)
    requires Valid(l) && 0 < index < l.length - 1
    ensures DeleteNodeAsWritten(l, index, Increment).Done?
    ensures var r := DeleteNodeAsWritten(l, index, Increment).state;
            r.length == l.length + 1 && |Walk(r.heap, r.head, r.length)| == l.length - 1 && !Valid(r)
  {
    var sp := Spine(l);
    var sp' := sp[..index] + sp[index + 1..];
    var prev := Get(l, index - 1);
    ChainNext(l.heap, sp, index - 1);
    assert prev != Null && l.heap[prev.addr].next == At(sp[index]);
    var r := DeleteNodeAsWritten(l, index, Increment).state;
    UnlinkChain(l.heap, sp, index);
    assert r.heap == DeleteNode(l, index).heap;
    WalkChain(r.heap, sp', 0, r.length);
  }

  /** Where the reversal loop points the node at position `j`: back at
      position `j - 1`, and the old head at null. */
  function BackLink(sp: seq<nat>, j: nat): Ptr
    requires j <= |sp|
  {
    if j == 0 then Null else At(sp[j - 1])
  }

  /** The heap after the first `i` iterations of the reversal loop over the
      chain `sp` of `h0`: nodes `0 .. i-1` point back at their predecessors. */
  function Relinked<T>(h0: Heap<T>, sp: seq<nat>, i: nat): (h: Heap<T>)
    requires InHeap(h0, sp) && i <= |sp|
    ensures |h| == |h0|
    decreases i
  {
    if i == 0 then h0
    else
      var h := Relinked(h0, sp, i - 1);
      h[sp[i - 1] := h[sp[i - 1]].(next := BackLink(sp, i - 1))]
  }

  /** Nodes not yet visited by the reversal loop are untouched. */
  lemma {:induction false} RelinkedOff<T>(h0: Heap<T>, sp: seq<nat>, i: nat, a: nat)
    requires InHeap(h0, sp) && i <= |sp| && a < |h0| && a !in sp[..i]
    ensures Relinked(h0, sp, i)[a] == h0[a]
    decreases i
  {
    if i > 0 {
      assert sp[..i] == sp[..i - 1] + [sp[i - 1]];
      RelinkedOff(h0, sp, i - 1, a);
    }
  }

  /** A node visited by the reversal loop points back at its predecessor and
      keeps its value. */
  lemma {:induction false} RelinkedOn<T>(h0: Heap<T>, sp: seq<nat>, i: nat, j: nat)
    requires Chain(h0, sp) && j < i <= |sp|
    ensures Relinked(h0, sp, i)[sp[j]] == h0[sp[j]].(next := BackLink(sp, j))
    decreases i
  {
    if j == i - 1 {
      ChainNotBefore(h0, sp, j);
      RelinkedOff(h0, sp, j, sp[j]);
    } else {
      ChainDistinct(h0, sp, j, i - 1);
      RelinkedOn(h0, sp, i - 1, j);
    }
  }

  /** The loop of `reverse()` from iteration `i` over the chain `sp` of the
      original heap `h0`: `after = temp->next; temp->next = before;
      before = temp; temp = after;` while `i < length`. Returns the final
      heap and `before`. */
  function ReverseSteps<T>(h0: Heap<T>, sp: seq<nat>, h: Heap<T>, temp: Ptr, before: Ptr, i: nat): (res: (Heap<T>, Ptr))
    requires Chain(h0, sp) && i <= |sp|
    requires h == Relinked(h0, sp, i)
    requires temp == PtrAt(sp, i)
    requires before == BackLink(sp, i)
    ensures res == (Relinked(h0, sp, |sp|), Last(sp))
    decreases |sp| - i
  {
    if i < |sp| then
      ChainNext(h0, sp, i);
      ChainNotBefore(h0, sp, i);
      RelinkedOff(h0, sp, i, sp[i]);
      var after := h[temp.addr].next;
      ReverseSteps(h0, sp, h[temp.addr := h[temp.addr].(next := before)], after, temp, i + 1)
    else
      (h, before)
  }

  /** `reverse()`: relinks every node to its predecessor over exactly
      `length` iterations, then swaps head and tail. */
  function Reverse<T>(l: List<T>): (r: List<T>)
    requires Valid(l)
    ensures Valid(r)
    ensures Contents(r) == Reversed(Contents(l))
    ensures Spine(r) == Reversed(Spine(l))
    ensures r.length == l.length && r.head == l.tail && r.tail == l.head
    ensures |r.heap| == |l.heap|
    ensures forall a :: 0 <= a < |l.heap| && a !in Spine(l) ==> r.heap[a] == l.heap[a]
    ensures forall j :: 0 <= j < l.length ==> r.heap[Spine(l)[j]] == l.heap[Spine(l)[j]].(next := BackLink(Spine(l), j))
  {
    var sp := Spine(l);
    var res := ReverseSteps(l.heap, sp, l.heap, l.head, Null, 0);
    RelinkedAll(l.heap, sp);
    var r := List(res.0, res.1, l.head, l.length);
    ReverseChain(l.heap, sp, res.0);
    Establish(r, Reversed(sp));
    r
  }

  /** After all `length` iterations, every node of the chain points back at
      its predecessor and every other node is untouched. */
  lemma {:induction false} RelinkedAll<T>(h0: Heap<T>, sp: seq<nat>)
    requires Chain(h0, sp)
    ensures forall a :: 0 <= a < |h0| && a !in sp ==> Relinked(h0, sp, |sp|)[a] == h0[a]
    ensures forall j :: 0 <= j < |sp| ==> Relinked(h0, sp, |sp|)[sp[j]] == h0[sp[j]].(next := BackLink(sp, j))
  {
    assert sp[..|sp|] == sp;
    forall a | 0 <= a < |h0| && a !in sp
      ensures Relinked(h0, sp, |sp|)[a] == h0[a]
    {
      RelinkedOff(h0, sp, |sp|, a);
    }
    forall j | 0 <= j < |sp|
      ensures Relinked(h0, sp, |sp|)[sp[j]] == h0[sp[j]].(next := BackLink(sp, j))
    {
      RelinkedOn(h0, sp, |sp|, j);
    }
  }

  lemma {:induction false} ReverseChain<T>(h: Heap<T>, sp: seq<nat>, h': Heap<T>)
    requires Chain(h, sp) && |h'| == |h|
    requires forall j :: 0 <= j < |sp| ==> h'[sp[j]] == h[sp[j]].(next := BackLink(sp, j))
    ensures Chain(h', Reversed(sp))
    ensures Values(h', Reversed(sp)) == Reversed(Values(h, sp))
  {
    ChainIff(h, sp);
    ReverseLinked(h', sp);
    DistinctReversed(sp);
    FactsGiveChain(h', Reversed(sp));
    forall k | 0 <= k < |sp|
      ensures h'[sp[k]].value == h[sp[k]].value
    {
      assert h'[sp[k]] == h[sp[k]].(next := BackLink(sp, k));
    }
    ValuesReversed(h, h', sp);
  }

  lemma {:induction false} ReverseLinked<T>(h': Heap<T>, sp: seq<nat>)
    requires InHeap(h', sp)
    requires forall j :: 0 <= j < |sp| ==> h'[sp[j]].next == BackLink(sp, j)
    ensures InHeap(h', Reversed(sp)) && Linked(h', Reversed(sp))
  {
    var rs := Reversed(sp);
    var n := |sp|;
    forall k | 0 <= k < n
      ensures rs[k] < |h'| && h'[rs[k]].next == PtrAt(rs, k + 1)
    {
      assert rs[k] == sp[n - 1 - k];
      assert h'[sp[n - 1 - k]].next == BackLink(sp, n - 1 - k);
      if k + 1 < n {
        assert rs[k + 1] == sp[n - 1 - k - 1];
      }
    }
  }

  /** Reversing twice restores the whole state: contents, head, tail,
      length and every node of the heap. */
  lemma {:induction false} ReverseInvolution<T>(l: List<T>)
    requires Valid(l)
    ensures Reverse(Reverse(l)) == l
  {
    var sp := Spine(l);
    var r1 := Reverse(l);
    var r2 := Reverse(r1);
    ReversedInvolution(sp);
    RelinkTwice(l.heap, r1.heap, r2.heap, sp);
  }

  /** Pointing every node of a chain back at its predecessor, and then every
      node of the reversed chain back at its predecessor, restores the heap. */
  lemma {:induction false} RelinkTwice<T>(h0: Heap<T>, h1: Heap<T>, h2: Heap<T>, sp: seq<nat>)
    requires Chain(h0, sp) && |h1| == |h0| && |h2| == |h0|
    requires forall a :: 0 <= a < |h0| && a !in sp ==> h1[a] == h0[a]
    requires forall j :: 0 <= j < |sp| ==> h1[sp[j]] == h0[sp[j]].(next := BackLink(sp, j))
    requires forall a :: 0 <= a < |h1| && a !in Reversed(sp) ==> h2[a] == h1[a]
    requires forall j :: 0 <= j < |sp| ==> h2[Reversed(sp)[j]] == h1[Reversed(sp)[j]].(next := BackLink(Reversed(sp), j))
    ensures h2 == h0
  {
    var rs := Reversed(sp);
    var n := |sp|;
    forall a | 0 <= a < |h0|
      ensures h2[a] == h0[a]
    {
      if a in sp {
        var j :| 0 <= j < n && sp[j] == a;
        var k := n - 1 - j;
        assert rs[k] == a;
        RelinkTwiceAt(h0, h1[a], h2[a], sp, j);
      } else {
        ReversedMembers(sp, a);
      }
    }
  }

  lemma {:induction false} RelinkTwiceAt<T>(h0: Heap<T>, x1: Node<T>, x2: Node<T>, sp: seq<nat>, j: nat)
    requires Chain(h0, sp) && j < |sp|
    requires x1 == h0[sp[j]].(next := BackLink(sp, j))
    requires x2 == x1.(next := BackLink(Reversed(sp), |sp| - 1 - j))
    ensures x2 == h0[sp[j]]
  {
    ChainNext(h0, sp, j);
    var k := |sp| - 1 - j;
    if k > 0 {
      assert Reversed(sp)[k - 1] == sp[j + 1];
    }
  }

  /** The tortoise/hare loop of `middle()` after `k` iterations: the hare
      advances two nodes per iteration while it and its successor exist. */
  function MiddleSteps<T>(l: List<T>, tortoise: Ptr, hare: Ptr, k: nat): (p: Ptr)
    requires Valid(l) && 2 * k <= l.length
    requires tortoise == PtrAt(Spine(l), k) && hare == PtrAt(Spine(l), 2 * k)
    ensures p == PtrAt(Spine(l), l.length / 2)
    decreases l.length - k
  {
    var sp := Spine(l);
    if hare != Null && l.heap[hare.addr].next != Null then
      ChainNext(l.heap, sp, 2 * k);
      ChainNext(l.heap, sp, 2 * k + 1);
      ChainNext(l.heap, sp, k);
      var hn := l.heap[hare.addr].next;
      assert hn == At(sp[2 * k + 1]);
      MiddleSteps(l, l.heap[tortoise.addr].next, l.heap[hn.addr].next, k + 1)
    else
      ChainNext(l.heap, sp, 2 * k);
      assert 2 * k == l.length || 2 * k + 1 == l.length;
      assert l.length / 2 == k;
      tortoise
  }

  /** `middle()`: null on an empty list, otherwise the node at position
      `length / 2` (the second of the two middles for an even length). */
  function Middle<T>(l: List<T>): (p: Ptr)
    requires Valid(l)
    ensures p == Null <==> l.length == 0
    ensures l.length > 0 ==> p == At(Spine(l)[l.length / 2])
    ensures l.length > 0 ==> p.addr < |l.heap| && l.heap[p.addr].value == Contents(l)[l.length / 2]
  {
    MiddleSteps(l, l.head, l.head, 0)
  }

  /** `deleteLast` undoes `append`. */
  lemma {:induction false} AppendThenDeleteLast<T>(l: List<T>, value: T)
    requires Valid(l)
    ensures Contents(DeleteLast(Append(l, value).state)) == Contents(l)
    ensures DeleteLast(Append(l, value).state).length == l.length
  {
    assert (Contents(l) + [value])[..l.length] == Contents(l);
  }

  /** `deleteFirst` undoes `prepend`. */
  lemma {:induction false} PrependThenDeleteFirst<T>(l: List<T>, value: T)
    requires Valid(l)
    ensures Contents(DeleteFirst(Prepend(l, value))) == Contents(l)
    ensures DeleteFirst(Prepend(l, value)).length == l.length
  {
    assert ([value] + Contents(l))[1..] == Contents(l);
  }

  /** `deleteNode(index)` undoes a successful `insert(index, value)`: an
      insertion keeps every existing element in its relative order. */
  lemma {:induction false} InsertThenDeleteNode<T>(l: List<T>, index: int, value: T)
    requires Valid(l) && 0 <= index <= l.length
    ensures Insert(l, index, value).ok
    ensures Contents(DeleteNode(Insert(l, index, value).state, index)) == Contents(l)
  {
    var s := Contents(l);
    var t := s[..index] + [value] + s[index..];
    assert t[..index] + t[index + 1..] == s;
  }

  /** `get` after `set` at the same index reads the new value, on every
      list and every in-range index (a one-element list included). */
  lemma {:induction false} SetThenGet<T>(l: List<T>, index: int, value: T)
    requires Valid(l) && 0 <= index < l.length
    ensures var r := Set(l, index, value).state;
            var p := Get(r, index);
            p != Null && r.heap[p.addr].value == value
  {
  }

  /** `set` leaves every other position as it was: `get` there reads the
      old value. */
  lemma {:induction false} SetLeavesOthers<T>(l: List<T>, index: int, value: T, other: int)
    requires Valid(l) && 0 <= index < l.length && 0 <= other < l.length && other != index
    ensures var r := Set(l, index, value).state;
            var q := Get(r, other);
            q != Null && r.heap[q.addr].value == Contents(l)[other]
  {
  }
}
