/** The doubly linked list `sjd::DoublyLinkedList<T>`
    (LL/doubly_linked_list.h).

    Nodes carry `next` and `prev`. The forward structure is exactly that of
    the singly linked list: projecting every node to its value and `next`
    (Forward) gives a heap of singly linked nodes, and the list is Valid when
    that projection is a well-formed chain of `m_length` nodes from `m_head`
    to `m_tail` and, in addition, every node's `prev` names its predecessor
    on the chain (null for the head).

    The source's own versions of `prepend`, `insert` and `remove` are
    modelled as written (`PrependAsWritten`, `InsertAsWritten`,
    `RemoveAsWritten`) next to corrected versions, which the rest of the
    model uses.
 */
module DoublyLinkedList {
  import opened Chains
  import LinkedList

  /** `struct Node { T value; Node* next; Node* prev; }` */
  datatype DNode<T> = DNode(value: T, next: Ptr, prev: Ptr)

  type DHeap<T> = seq<DNode<T>>

  /** The heap seen through `next` alone. */
  function Forward<T>(h: DHeap<T>): (f: Heap<T>)
    ensures |f| == |h|
    ensures forall a :: 0 <= a < |h| ==> f[a] == Node(h[a].value, h[a].next)
  {
    seq(|h|, a requires 0 <= a < |h| => Node(h[a].value, h[a].next))
  }

  lemma {:induction false} ForwardUpdate<T>(h: DHeap<T>, a: nat, x: DNode<T>)
    requires a < |h|
    ensures Forward(h[a := x]) == Forward(h)[a := Node(x.value, x.next)]
  {
  }

  lemma {:induction false} ForwardGrow<T>(h: DHeap<T>, x: DNode<T>)
    ensures Forward(h + [x]) == Forward(h) + [Node(x.value, x.next)]
  {
  }

  /** Changing only a node's `prev` is invisible to the forward structure. */
  lemma {:induction false} ForwardPrev<T>(h: DHeap<T>, a: nat, p: Ptr)
    requires a < |h|
    ensures Forward(h[a := h[a].(prev := p)]) == Forward(h)
  {
    ForwardUpdate(h, a, h[a].(prev := p));
  }

  /** The last address of `s`, or `b` when `s` is empty. */
  function LastOr(s: seq<nat>, b: Ptr): Ptr {
    if |s| == 0 then b else At(s[|s| - 1])
  }

  /** The `prev` links along `sp`: the first node points back at `before`,
      every other node at its predecessor on `sp`. */
  predicate BackChain<T>(h: DHeap<T>, sp: seq<nat>, before: Ptr)
    decreases |sp|
  {
    |sp| == 0 || (sp[0] < |h| && h[sp[0]].prev == before && BackChain(h, sp[1..], At(sp[0])))
  }

  lemma {:induction false} BackChainAt<T>(h: DHeap<T>, sp: seq<nat>, before: Ptr, i: nat)
    requires BackChain(h, sp, before) && i < |sp|
    ensures sp[i] < |h| && h[sp[i]].prev == (if i == 0 then before else At(sp[i - 1]))
    decreases i
  {
    if i > 0 {
      BackChainAt(h, sp[1..], At(sp[0]), i - 1);
      assert sp[1..][i - 1] == sp[i];
      if i > 1 {
        assert sp[1..][i - 2] == sp[i - 1];
      }
    }
  }

  /** The `prev` links of a concatenation are those of its two halves, the
      second half pointing back at the end of the first. */
  lemma {:induction false} BackChainConcat<T>(h: DHeap<T>, s1: seq<nat>, s2: seq<nat>, before: Ptr)
    ensures BackChain(h, s1 + s2, before) <==> BackChain(h, s1, before) && BackChain(h, s2, LastOr(s1, before))
    decreases |s1|
  {
    if |s1| == 0 {
      assert s1 + s2 == s2;
    } else {
      assert (s1 + s2)[1..] == s1[1..] + s2;
      assert (s1 + s2)[0] == s1[0];
      BackChainConcat(h, s1[1..], s2, At(s1[0]));
      assert LastOr(s1[1..], At(s1[0])) == LastOr(s1, before);
    }
  }

  /** The `prev` links along `sp` survive any change that keeps the `prev`
      of its nodes after the first; the first may be re-pointed. */
  lemma {:induction false} BackChainFrame<T>(h: DHeap<T>, h': DHeap<T>, sp: seq<nat>, before: Ptr, before': Ptr)
    requires BackChain(h, sp, before)
    requires |sp| > 0 ==> sp[0] < |h'| && h'[sp[0]].prev == before'
    requires forall i :: 0 < i < |sp| ==> sp[i] < |h| && sp[i] < |h'| && h'[sp[i]].prev == h[sp[i]].prev
    ensures BackChain(h', sp, before')
    decreases |sp|
  {
    if |sp| > 0 {
      var tl := sp[1..];
      forall i | 0 < i < |tl|
        ensures tl[i] < |h| && tl[i] < |h'| && h'[tl[i]].prev == h[tl[i]].prev
      {
        assert tl[i] == sp[i + 1];
      }
      if |tl| > 0 {
        assert tl[0] == sp[1];
      }
      BackChainFrame(h, h', tl, At(sp[0]), At(sp[0]));
    }
  }

  /** `temp = temp->prev`, `k` times. */
  function Retreat<T>(h: DHeap<T>, p: Ptr, k: nat): Ptr
    decreases k
  {
    if k == 0 then p
    else match p
      case Null => Null
      case At(a) => if a < |h| then Retreat(h, h[a].prev, k - 1) else Null
  }

  /** Stepping back `k` times from position `j` lands on position `j - k`. */
  lemma {:induction false} RetreatChain<T>(h: DHeap<T>, sp: seq<nat>, j: nat, k: nat)
    requires BackChain(h, sp, Null) && k <= j < |sp|
    ensures Retreat(h, At(sp[j]), k) == At(sp[j - k])
    decreases k
  {
    if k > 0 {
      BackChainAt(h, sp, Null, j);
      RetreatChain(h, sp, j - 1, k - 1);
    }
  }

  datatype DList<T> = DList(heap: DHeap<T>, head: Ptr, tail: Ptr, length: int)

  /** The addresses reached from the head along `next` in `length` steps. */
  function Spine<T>(d: DList<T>): seq<nat> {
    if d.length < 0 then [] else Walk(Forward(d.heap), d.head, d.length)
  }

  /** The class invariant: a well-formed forward chain of `length` nodes
      from head to tail whose `prev` links mirror it. */
  predicate Valid<T>(d: DList<T>) {
    && d.length >= 0
    && |Spine(d)| == d.length
    && Chain(Forward(d.heap), Spine(d))
    && BackChain(d.heap, Spine(d), Null)
    && d.head == PtrAt(Spine(d), 0)
    && d.tail == Last(Spine(d))
  }

  /** The values the list holds, head first. */
  function Contents<T>(d: DList<T>): seq<T>
    requires Valid(d)
  {
    Values(Forward(d.heap), Spine(d))
  }

  lemma {:induction false} Establish<T>(d: DList<T>, sp: seq<nat>)
    requires Chain(Forward(d.heap), sp) && BackChain(d.heap, sp, Null)
    requires d.length == |sp| && d.head == PtrAt(sp, 0) && d.tail == Last(sp)
    ensures Valid(d) && Spine(d) == sp
  {
    WalkChain(Forward(d.heap), sp, 0, |sp|);
  }

  /** The shape invariants: head and tail are null exactly on an empty
      list, and the head's `prev` and the tail's `next` are null. */
  lemma {:induction false} ValidShape<T>(d: DList<T>)
    requires Valid(d)
    ensures d.head == Null <==> d.length == 0
    ensures d.tail == Null <==> d.length == 0
    ensures d.length > 0 ==> d.head.addr < |d.heap| && d.heap[d.head.addr].prev == Null
    ensures d.length > 0 ==> d.tail.addr < |d.heap| && d.heap[d.tail.addr].next == Null
  {
    var sp := Spine(d);
    if d.length > 0 {
      BackChainAt(d.heap, sp, Null, 0);
      ChainNext(Forward(d.heap), sp, d.length - 1);
    }
  }

  /** Along the list every node's successor points back at it. */
  lemma {:induction false} PrevMirrorsNext<T>(d: DList<T>)
    requires Valid(d)
    ensures forall i {:trigger Spine(d)[i]} :: 0 <= i < d.length - 1 ==>
              && Spine(d)[i] < |d.heap| && Spine(d)[i + 1] < |d.heap|
              && d.heap[Spine(d)[i]].next == At(Spine(d)[i + 1])
              && d.heap[Spine(d)[i + 1]].prev == At(Spine(d)[i])
  {
    var sp := Spine(d);
    forall i {:trigger sp[i]} | 0 <= i < d.length - 1
      ensures && sp[i] < |d.heap| && sp[i + 1] < |d.heap|
              && d.heap[sp[i]].next == At(sp[i + 1])
              && d.heap[sp[i + 1]].prev == At(sp[i])
    {
      ChainNext(Forward(d.heap), sp, i);
      BackChainAt(d.heap, sp, Null, i + 1);
    }
  }

  /** `getLength()`: the number of values held (see the README on what the
      source returns instead). */
  function GetLength<T>(d: DList<T>): (n: int)
    requires Valid(d)
    ensures n == |Contents(d)|
  {
    d.length
  }

  /** A chain of the single fresh node `n`. */
  lemma {:induction false} Singleton<T>(h: DHeap<T>, value: T)
    ensures var h' := h + [DNode(value, Null, Null)];
            Chain(Forward(h'), [|h|]) && BackChain(h', [|h|], Null) && Values(Forward(h'), [|h|]) == [value]
  {
    var h' := h + [DNode(value, Null, Null)];
    assert Forward(h')[|h|] == Node(value, Null);
    assert [|h|][1..] == [];
  }

  /** `DoublyLinkedList(value)`: a single node that is both head and tail. */
  function Create<T>(value: T): (d: DList<T>)
    ensures Valid(d) && Contents(d) == [value]
    ensures d.head == d.tail && d.head != Null && d.length == 1
  {
    var d := DList([DNode(value, Null, Null)], At(0), At(0), 1);
    Singleton([], value);
    Establish(d, [0]);
    d
  }

  /** `append(value)`: the new node follows the tail and points back at it;
      on an empty list it becomes the head too. Always returns true. */
  function Append<T>(d: DList<T>, value: T): (r: Ack<DList<T>>)
    requires Valid(d)
    ensures r.ok && Valid(r.state)
    ensures Contents(r.state) == Contents(d) + [value] && r.state.length == d.length + 1
    ensures Spine(r.state) == Spine(d) + [|d.heap|] && r.state.tail == At(|d.heap|)
    ensures d.length > 0 ==> r.state.head == d.head
  {
    var n := |d.heap|;
    var sp := Spine(d);
    if d.length == 0 then
      var r := DList(d.heap + [DNode(value, Null, Null)], At(n), At(n), 1);
      Singleton(d.heap, value);
      Establish(r, [n]);
      Ack(true, r)
    else
      var t := d.tail.addr;
      var h := d.heap[t := d.heap[t].(next := At(n))] + [DNode(value, Null, d.tail)];
      var r := DList(h, d.head, At(n), d.length + 1);
      AppendD(d.heap, sp, value);
      Establish(r, sp + [n]);
      Ack(true, r)
  }

  lemma {:induction false} AppendD<T>(h: DHeap<T>, sp: seq<nat>, value: T)
    requires Chain(Forward(h), sp) && BackChain(h, sp, Null) && |sp| > 0
    ensures var t := sp[|sp| - 1];
            var h' := h[t := h[t].(next := At(|h|))] + [DNode(value, Null, At(t))];
            && Chain(Forward(h'), sp + [|h|]) && BackChain(h', sp + [|h|], Null)
            && Values(Forward(h'), sp + [|h|]) == Values(Forward(h), sp) + [value]
  {
    var n := |h|;
    var t := sp[|sp| - 1];
    var h1 := h[t := h[t].(next := At(n))];
    var h' := h1 + [DNode(value, Null, At(t))];
    ForwardUpdate(h, t, h[t].(next := At(n)));
    ForwardGrow(h1, DNode(value, Null, At(t)));
    LinkedList.AppendChain(Forward(h), sp, value);
    BackChainFrame(h, h', sp, Null, Null);
    assert [n][1..] == [];
    BackChainConcat(h', sp, [n], Null);
  }

  /** `prepend(value)` as the source writes it: on an empty list the new
      node becomes the head but `m_tail` is never set. Always returns
      true. */
  function PrependAsWritten<T>(d: DList<T>, value: T): (r: Ack<DList<T>>)
    requires Valid(d)
    ensures r.ok && r.state.length == d.length + 1 && r.state.head == At(|d.heap|)
    ensures r.state.tail == d.tail
  {
    var n := |d.heap|;
    if d.length == 0 then
      Ack(true, DList(d.heap + [DNode(value, Null, Null)], At(n), d.tail, d.length + 1))
    else
      var s := d.head.addr;
      Ack(true, DList(d.heap[s := d.heap[s].(prev := At(n))] + [DNode(value, d.head, Null)], At(n), d.tail, d.length + 1))
  }

  /** `prepend(value)` with the missing `m_tail = newNode` restored in the
      empty case. */
  function Prepend<T>(d: DList<T>, value: T): (r: Ack<DList<T>>)
    requires Valid(d)
    ensures r.ok && Valid(r.state)
    ensures Contents(r.state) == [value] + Contents(d) && r.state.length == d.length + 1
    ensures Spine(r.state) == [|d.heap|] + Spine(d) && r.state.head == At(|d.heap|)
    ensures d.length > 0 ==> r.state.tail == d.tail
  {
    var n := |d.heap|;
    var sp := Spine(d);
    if d.length == 0 then
      var r := DList(d.heap + [DNode(value, Null, Null)], At(n), At(n), 1);
      Singleton(d.heap, value);
      Establish(r, [n]);
      Ack(true, r)
    else Ack(true, PrependFront(d, value))
  }

  /** `prepend(value)` on a non-empty list: the old head points back at the
      new node, which becomes the head. */
  function PrependFront<T>(d: DList<T>, value: T): (r: DList<T>)
    requires Valid(d) && d.length > 0
    ensures Valid(r)
    ensures Contents(r) == [value] + Contents(d) && r.length == d.length + 1
    ensures Spine(r) == [|d.heap|] + Spine(d) && r.head == At(|d.heap|) && r.tail == d.tail
  {
    var n := |d.heap|;
    var sp := Spine(d);
    var s := sp[0];
    assert d.head == At(s);
    var r := DList(d.heap[s := d.heap[s].(prev := At(n))] + [DNode(value, d.head, Null)], At(n), d.tail, d.length + 1);
    PrependD(d.heap, sp, value);
    Establish(r, [n] + sp);
    r
  }

  lemma {:induction false} PrependD<T>(h: DHeap<T>, sp: seq<nat>, value: T)
    requires Chain(Forward(h), sp) && BackChain(h, sp, Null) && |sp| > 0
    ensures var s := sp[0];
            var h' := h[s := h[s].(prev := At(|h|))] + [DNode(value, At(s), Null)];
            && Chain(Forward(h'), [|h|] + sp) && BackChain(h', [|h|] + sp, Null)
            && Values(Forward(h'), [|h|] + sp) == [value] + Values(Forward(h), sp)
  {
    var n := |h|;
    var s := sp[0];
    var h1 := h[s := h[s].(prev := At(n))];
    var h' := h1 + [DNode(value, At(s), Null)];
    ForwardPrev(h, s, At(n));
    ForwardGrow(h1, DNode(value, At(s), Null));
    LinkedList.PrependChain(Forward(h), sp, value);
    BackChainFrame(h, h', sp, Null, At(n));
    assert ([n] + sp)[1..] == sp;
  }

  /** On an empty list the source's `prepend` leaves a one-node list whose
      tail is null, which is not a Valid list: a following `pop` or
      `append` dereferences that null tail. */
  lemma {:induction false} PrependAsWrittenEmptyLosesTail<T>(d: DList<T>, value: T)
    requires Valid(d) && d.length == 0
    ensures var r := PrependAsWritten(d, value).state;
            r.length == 1 && r.head != Null && r.tail == Null && !Valid(r)
  {
  }

  /** On a non-empty list the source's `prepend` is the corrected one. */
  lemma {:induction false} PrependAsWrittenNonEmpty<T>(d: DList<T>, value: T)
    requires Valid(d) && d.length > 0
    ensures PrependAsWritten(d, value) == Prepend(d, value)
  {
  }

  /** `pop()`: null on an empty list; otherwise the tail is detached, its
      predecessor becomes the tail, and the detached node has null links. */
  function Pop<T>(d: DList<T>): (r: Detached<DList<T>>)
    requires Valid(d)
    ensures Valid(r.state)
    ensures d.length == 0 ==> r.node == Null && r.state == d
    ensures d.length > 0 ==> r.node == d.tail && r.node == At(Spine(d)[d.length - 1])
    ensures d.length > 0 ==> r.state.length == d.length - 1 && Contents(r.state) == Contents(d)[..d.length - 1]
    ensures d.length > 0 ==> Spine(r.state) == Spine(d)[..d.length - 1] && r.node.addr !in Spine(r.state)
    ensures d.length > 0 ==> r.node.addr < |r.state.heap| && r.state.heap[r.node.addr] == DNode(Contents(d)[d.length - 1], Null, Null)
  {
    if d.length == 0 then Detached(Null, d)
    else PopTail(d)
  }

  /** `pop()` on a non-empty list: the tail's `prev` becomes the tail. */
  function PopTail<T>(d: DList<T>): (r: Detached<DList<T>>)
    requires Valid(d) && d.length > 0
    ensures Valid(r.state)
    ensures r.node == d.tail && r.node == At(Spine(d)[d.length - 1])
    ensures r.state.length == d.length - 1 && Contents(r.state) == Contents(d)[..d.length - 1]
    ensures Spine(r.state) == Spine(d)[..d.length - 1] && r.node.addr !in Spine(r.state)
    ensures r.node.addr < |r.state.heap| && r.state.heap[r.node.addr] == DNode(Contents(d)[d.length - 1], Null, Null)
  {
    var sp := Spine(d);
    var t := d.tail.addr;
    var nt := d.heap[t].prev;
    BackChainAt(d.heap, sp, Null, d.length - 1);
    ChainNext(Forward(d.heap), sp, d.length - 1);
    assert Contents(d)[d.length - 1] == d.heap[t].value;
    if d.length == 1 then
      var r := DList(d.heap, Null, nt, 0);
      Establish(r, []);
      Detached(d.tail, r)
    else
      var h1 := d.heap[nt.addr := d.heap[nt.addr].(next := Null)];
      var h2 := h1[t := h1[t].(prev := Null)];
      var r := DList(h2, d.head, nt, d.length - 1);
      PopD(d.heap, sp);
      Establish(r, sp[..d.length - 1]);
      Detached(d.tail, r)
  }

  lemma {:induction false} PopD<T>(h: DHeap<T>, sp: seq<nat>)
    requires Chain(Forward(h), sp) && BackChain(h, sp, Null) && |sp| >= 2
    ensures var t := sp[|sp| - 1];
            var p := sp[|sp| - 2];
            var h1 := h[p := h[p].(next := Null)];
            var h2 := h1[t := h1[t].(prev := Null)];
            var sp' := sp[..|sp| - 1];
            && Chain(Forward(h2), sp') && BackChain(h2, sp', Null)
            && Values(Forward(h2), sp') == Values(Forward(h), sp)[..|sp| - 1]
            && t !in sp' && h2[t] == h[t].(prev := Null)
  {
    var t := sp[|sp| - 1];
    var p := sp[|sp| - 2];
    var h1 := h[p := h[p].(next := Null)];
    var h2 := h1[t := h1[t].(prev := Null)];
    var sp' := sp[..|sp| - 1];
    ChainNotBefore(Forward(h), sp, |sp| - 1);
    ChainDistinct(Forward(h), sp, |sp| - 1, |sp| - 2);
    ForwardUpdate(h, p, h[p].(next := Null));
    ForwardPrev(h1, t, Null);
    LinkedList.DeleteLastChain(Forward(h), sp);
    assert sp == sp' + [t];
    BackChainConcat(h, sp', [t], Null);
    BackChainFrame(h, h2, sp', Null, Null);
  }

  /** `popFirst()`: null on an empty list; otherwise the head is detached,
      its successor becomes the head, and the detached node has null
      links. */
  function PopFirst<T>(d: DList<T>): (r: Detached<DList<T>>)
    requires Valid(d)
    ensures Valid(r.state)
    ensures d.length == 0 ==> r.node == Null && r.state == d
    ensures d.length > 0 ==> r.node == d.head && r.node == At(Spine(d)[0])
    ensures d.length > 0 ==> r.state.length == d.length - 1 && Contents(r.state) == Contents(d)[1..]
    ensures d.length > 0 ==> Spine(r.state) == Spine(d)[1..] && r.node.addr !in Spine(r.state)
    ensures d.length > 0 ==> r.node.addr < |r.state.heap| && r.state.heap[r.node.addr] == DNode(Contents(d)[0], Null, Null)
  {
    var sp := Spine(d);
    if d.length == 0 then Detached(Null, d)
    else
      var s := d.head.addr;
      var nh := d.heap[s].next;
      ChainNext(Forward(d.heap), sp, 0);
      if d.length == 1 then
        var r := DList(d.heap, nh, Null, 0);
        Establish(r, []);
        Detached(d.head, r)
      else
        var h1 := d.heap[nh.addr := d.heap[nh.addr].(prev := Null)];
        var h2 := h1[s := h1[s].(next := Null)];
        var r := DList(h2, nh, d.tail, d.length - 1);
        PopFirstD(d.heap, sp);
        Establish(r, sp[1..]);
        Detached(d.head, r)
  }

  lemma {:induction false} PopFirstD<T>(h: DHeap<T>, sp: seq<nat>)
    requires Chain(Forward(h), sp) && BackChain(h, sp, Null) && |sp| >= 2
    ensures var s := sp[0];
            var h1 := h[sp[1] := h[sp[1]].(prev := Null)];
            var h2 := h1[s := h1[s].(next := Null)];
            && Chain(Forward(h2), sp[1..]) && BackChain(h2, sp[1..], Null)
            && Values(Forward(h2), sp[1..]) == Values(Forward(h), sp)[1..]
            && s !in sp[1..] && h2[s] == h[s].(next := Null)
  {
    var s := sp[0];
    var h1 := h[sp[1] := h[sp[1]].(prev := Null)];
    var h2 := h1[s := h1[s].(next := Null)];
    var tl := sp[1..];
    ChainDistinct(Forward(h), sp, 0, 1);
    ForwardPrev(h, sp[1], Null);
    ForwardUpdate(h1, s, h1[s].(next := Null));
    ChainSuffix(Forward(h), sp);
    ChainFrame(Forward(h), Forward(h2), tl);
    forall i | 0 < i < |tl|
      ensures tl[i] < |h2| && h2[tl[i]].prev == h[tl[i]].prev
    {
      assert tl[i] == sp[i + 1];
      ChainDistinct(Forward(h), sp, i + 1, 1);
    }
    BackChainFrame(h, h2, tl, At(s), Null);
  }

  /** `get(index)`: null outside `[0, length)`; otherwise it walks forward
      from the head when `index < length / 2` and backward from the tail
      otherwise, and either way reaches the node at position `index`. */
  function Get<T>(d: DList<T>, index: int): (p: Ptr)
    requires Valid(d)
    ensures p == Null <==> !(0 <= index < d.length)
    ensures 0 <= index < d.length ==> p == At(Spine(d)[index])
    ensures 0 <= index < d.length ==> p.addr < |d.heap| && d.heap[p.addr].value == Contents(d)[index]
  {
    if index < 0 || index >= d.length then Null
    else
      GetReaches(d, index);
      if index < d.length / 2 then Advance(Forward(d.heap), d.head, index)
      else Retreat(d.heap, d.tail, d.length - 1 - index)
  }

  /** Both of `get`'s walks end on the node at position `index`. */
  lemma {:induction false} GetReaches<T>(d: DList<T>, index: int)
    requires Valid(d) && 0 <= index < d.length
    ensures Spine(d)[index] < |d.heap| && d.heap[Spine(d)[index]].value == Contents(d)[index]
    ensures Advance(Forward(d.heap), d.head, index) == At(Spine(d)[index])
    ensures Retreat(d.heap, d.tail, d.length - 1 - index) == At(Spine(d)[index])
  {
    var sp := Spine(d);
    assert Contents(d)[index] == Forward(d.heap)[sp[index]].value;
    AdvanceChain(Forward(d.heap), sp, 0, index);
    RetreatChain(d.heap, sp, d.length - 1, d.length - 1 - index);
  }

  /** Walking back from the tail mirrors walking forward from the head: the
      node `length - 1 - i` steps before the tail is `i` steps after the
      head. */
  lemma {:induction false} BothDirections<T>(d: DList<T>, i: int)
    requires Valid(d) && 0 <= i < d.length
    ensures Retreat(d.heap, d.tail, d.length - 1 - i) == Advance(Forward(d.heap), d.head, i)
  {
    var sp := Spine(d);
    AdvanceChain(Forward(d.heap), sp, 0, i);
    RetreatChain(d.heap, sp, d.length - 1, d.length - 1 - i);
  }

  /** `setValue(index, value)`: false and no change outside `[0, length)`;
      otherwise only the value at position `index` changes. */
  function SetValue<T>(d: DList<T>, index: int, value: T): (r: Ack<DList<T>>)
    requires Valid(d)
    ensures r.ok <==> 0 <= index < d.length
    ensures !r.ok ==> r.state == d
    ensures r.ok ==> Valid(r.state) && Contents(r.state) == Contents(d)[index := value]
    ensures r.ok ==> Spine(r.state) == Spine(d) && r.state.head == d.head && r.state.tail == d.tail
  {
    var temp := Get(d, index);
    if temp != Null then
      var sp := Spine(d);
      var h := d.heap[temp.addr := d.heap[temp.addr].(value := value)];
      var r := DList(h, d.head, d.tail, d.length);
      SetD(d.heap, sp, index, value);
      Establish(r, sp);
      Ack(true, r)
    else
      Ack(false, d)
  }

  lemma {:induction false} SetD<T>(h: DHeap<T>, sp: seq<nat>, index: nat, value: T)
    requires Chain(Forward(h), sp) && BackChain(h, sp, Null) && index < |sp|
    ensures var h' := h[sp[index] := h[sp[index]].(value := value)];
            && Chain(Forward(h'), sp) && BackChain(h', sp, Null)
            && Values(Forward(h'), sp) == Values(Forward(h), sp)[index := value]
  {
    var a := sp[index];
    var h' := h[a := h[a].(value := value)];
    ForwardUpdate(h, a, h[a].(value := value));
    LinkedList.SetChain(Forward(h), sp, index, value);
    BackChainFrame(h, h', sp, Null, Null);
  }

  /** The general path of `insert`: a new node is placed before the node
      `get(index)` finds, between it and its predecessor. */
  function SpliceBefore<T>(d: DList<T>, index: int, value: T): (r: DList<T>)
    requires Valid(d) && 0 < index < d.length
    ensures Valid(r) && r.length == d.length + 1
    ensures Contents(r) == Contents(d)[..index] + [value] + Contents(d)[index..]
    ensures Spine(r) == Spine(d)[..index] + [|d.heap|] + Spine(d)[index..]
  {
    var n := |d.heap|;
    var sp := Spine(d);
    var temp := Get(d, index);
    var t := temp.addr;
    BackChainAt(d.heap, sp, Null, index);
    var p := d.heap[t].prev.addr;
    var h1 := d.heap + [DNode(value, temp, d.heap[t].prev)];
    var h2 := h1[p := h1[p].(next := At(n))];
    var h3 := h2[t := h2[t].(prev := At(n))];
    SpliceD(d.heap, sp, index, value);
    Establish(DList(h3, d.head, d.tail, d.length + 1), sp[..index] + [n] + sp[index..]);
    DList(h3, d.head, d.tail, d.length + 1)
  }

  lemma {:induction false} SpliceD<T>(h: DHeap<T>, sp: seq<nat>, index: nat, value: T)
    requires Chain(Forward(h), sp) && BackChain(h, sp, Null) && 0 < index < |sp|
    ensures var n := |h|;
            var p := sp[index - 1];
            var t := sp[index];
            var h1 := h + [DNode(value, At(t), At(p))];
            var h2 := h1[p := h1[p].(next := At(n))];
            var h3 := h2[t := h2[t].(prev := At(n))];
            var sp' := sp[..index] + [n] + sp[index..];
            && Chain(Forward(h3), sp') && BackChain(h3, sp', Null)
            && Values(Forward(h3), sp') == Values(Forward(h), sp)[..index] + [value] + Values(Forward(h), sp)[index..]
  {
    var n := |h|;
    var p := sp[index - 1];
    var t := sp[index];
    var h1 := h + [DNode(value, At(t), At(p))];
    var h2 := h1[p := h1[p].(next := At(n))];
    var h3 := h2[t := h2[t].(prev := At(n))];
    var sp' := sp[..index] + [n] + sp[index..];
    ChainNext(Forward(h), sp, index - 1);
    ChainNext(Forward(h), sp, index);
    ChainDistinct(Forward(h), sp, index - 1, index);
    SpliceForward(h, p, t, value);
    LinkedList.InsertChain(Forward(h), sp, index, value);
    assert h3[n].prev == At(p);
    assert forall a :: 0 <= a < n && a != t ==> h3[a].prev == h[a].prev;
    SpliceBack(h, h3, sp, index);
  }

  lemma {:induction false} SpliceForward<T>(h: DHeap<T>, p: nat, t: nat, value: T)
    requires p < |h| && t < |h| && p != t
    ensures var n := |h|;
            var h1 := h + [DNode(value, At(t), At(p))];
            var h2 := h1[p := h1[p].(next := At(n))];
            var h3 := h2[t := h2[t].(prev := At(n))];
            Forward(h3) == Forward(h)[p := Forward(h)[p].(next := At(n))] + [Node(value, At(t))]
  {
    var n := |h|;
    var h1 := h + [DNode(value, At(t), At(p))];
    var h2 := h1[p := h1[p].(next := At(n))];
    ForwardGrow(h, DNode(value, At(t), At(p)));
    ForwardUpdate(h1, p, h1[p].(next := At(n)));
    ForwardPrev(h2, t, At(n));
  }

  lemma {:induction false} SpliceBack<T>(h: DHeap<T>, h3: DHeap<T>, sp: seq<nat>, index: nat)
    requires Chain(Forward(h), sp) && BackChain(h, sp, Null) && 0 < index < |sp|
    requires |h3| == |h| + 1
    requires h3[|h|].prev == At(sp[index - 1]) && h3[sp[index]].prev == At(|h|)
    requires forall a :: 0 <= a < |h| && a != sp[index] ==> h3[a].prev == h[a].prev
    ensures BackChain(h3, sp[..index] + [|h|] + sp[index..], Null)
  {
    var n := |h|;
    var s1 := sp[..index];
    var s2 := sp[index..];
    assert sp == s1 + s2;
    BackChainConcat(h, s1, s2, Null);
    forall i | 0 < i < |s1|
      ensures s1[i] < |h3| && h3[s1[i]].prev == h[s1[i]].prev
    {
      ChainDistinct(Forward(h), sp, i, index);
    }
    if |s1| > 0 {
      ChainDistinct(Forward(h), sp, 0, index);
    }
    BackChainFrame(h, h3, s1, Null, Null);
    forall i | 0 < i < |s2|
      ensures s2[i] < |h3| && h3[s2[i]].prev == h[s2[i]].prev
    {
      assert s2[i] == sp[index + i];
      ChainDistinct(Forward(h), sp, index + i, index);
    }
    BackChainFrame(h, h3, s2, LastOr(s1, Null), At(n));
    assert [n][1..] == [];
    BackChainConcat(h3, s1, [n], Null);
    BackChainConcat(h3, s1 + [n], s2, Null);
  }

  /** `insert(index, value)` as the source writes it: the guard rejects
      `index >= length`, so the `index == length` append branch that
      follows it can never run and inserting at the end fails. (The
      `if (temp)` test on the general path always holds and is omitted.) */
  function InsertAsWritten<T>(d: DList<T>, index: int, value: T): (r: Ack<DList<T>>)
    requires Valid(d)
    ensures r.ok <==> 0 <= index < d.length
    ensures !r.ok ==> r.state == d
  {
    if index < 0 || index >= d.length then Ack(false, d)
    else if index == 0 then PrependAsWritten(d, value)
    else Ack(true, SpliceBefore(d, index, value))
  }

  /** `insert(index, value)` with the guard widened to `index > length`, so
      that `index == length` appends. */
  function Insert<T>(d: DList<T>, index: int, value: T): (r: Ack<DList<T>>)
    requires Valid(d)
    ensures r.ok <==> 0 <= index <= d.length
    ensures !r.ok ==> r.state == d
    ensures r.ok ==> Valid(r.state) && r.state.length == d.length + 1
    ensures r.ok ==> Contents(r.state) == Contents(d)[..index] + [value] + Contents(d)[index..]
  {
    if index < 0 || index > d.length then Ack(false, d)
    else if index == 0 then
      InsertAtEnds(Contents(d), value);
      Prepend(d, value)
    else if index == d.length then
      InsertAtEnds(Contents(d), value);
      Append(d, value)
    else Ack(true, SpliceBefore(d, index, value))
  }

  /** The source's `insert` refuses to insert at the end of the list (on an
      empty list, even at index 0). */
  lemma {:induction false} InsertAsWrittenRejectsEnd<T>(d: DList<T>, value: T)
    requires Valid(d)
    ensures !InsertAsWritten(d, d.length, value).ok && Insert(d, d.length, value).ok
  {
  }

  /** Everywhere else the source's `insert` is the corrected one. */
  lemma {:induction false} InsertAsWrittenAgrees<T>(d: DList<T>, index: int, value: T)
    requires Valid(d) && index != d.length
    ensures InsertAsWritten(d, index, value) == Insert(d, index, value)
  {
    if index == 0 {
      PrependAsWrittenNonEmpty(d, value);
    }
  }

  /** `remove(index)` as the source writes it: after `get(index)` it writes
      `temp->prev->next` and `temp->next->prev` without checking for the
      head (null `prev`) or the tail (null `next`), and never updates
      `m_head` or `m_tail`. */
  function RemoveAsWritten<T>(d: DList<T>, index: int): (r: Outcome<Detached<DList<T>>>)
    requires Valid(d)
    ensures r == NullDeref <==> 0 <= index < d.length && (index == 0 || index == d.length - 1)
    ensures !(0 <= index < d.length) ==> r == Done(Detached(Null, d))
    ensures r.Done? && 0 <= index < d.length ==> r.state.node == At(Spine(d)[index]) && r.state.state.length == d.length - 1
  {
    var temp := Get(d, index);
    if temp == Null then Done(Detached(Null, d))
    else
      var t := temp.addr;
      var p := d.heap[t].prev;
      var q := d.heap[t].next;
      BackChainAt(d.heap, Spine(d), Null, index);
      ChainNext(Forward(d.heap), Spine(d), index);
      if p == Null then NullDeref
      else
        var h1 := d.heap[p.addr := d.heap[p.addr].(next := q)];
        if q == Null then NullDeref
        else Done(Bypass(d, h1, t, p, q))
  }

  /** The unlinking that ends `remove`: `q` points back at `p`, and the
      removed node `t` loses both links. */
  function Bypass<T>(d: DList<T>, h1: DHeap<T>, t: nat, p: Ptr, q: Ptr): (r: Detached<DList<T>>)
    requires t < |h1| && q.At? && q.addr < |h1|
    ensures r.node == At(t) && r.state.length == d.length - 1
    ensures r.state.head == d.head && r.state.tail == d.tail && |r.state.heap| == |h1|
    ensures r.state.heap[t] == h1[t].(prev := Null, next := Null)
    ensures q.addr != t ==> r.state.heap[q.addr] == h1[q.addr].(prev := p)
  {
    var h2 := h1[q.addr := h1[q.addr].(prev := p)];
    var h3 := h2[t := h2[t].(prev := Null)];
    var h4 := h3[t := h3[t].(next := Null)];
    Detached(At(t), DList(h4, d.head, d.tail, d.length - 1))
  }

  /** The general path of `remove` on an interior position. */
  function Unlink<T>(d: DList<T>, index: int): (r: Detached<DList<T>>)
    requires Valid(d) && 0 < index < d.length - 1
    ensures Valid(r.state) && r.state.length == d.length - 1
    ensures r.node == At(Spine(d)[index])
    ensures Contents(r.state) == Contents(d)[..index] + Contents(d)[index + 1..]
    ensures Spine(r.state) == Spine(d)[..index] + Spine(d)[index + 1..] && r.node.addr !in Spine(r.state)
    ensures r.node.addr < |r.state.heap| && r.state.heap[r.node.addr] == DNode(Contents(d)[index], Null, Null)
  {
    var sp := Spine(d);
    var t := sp[index];
    BackChainAt(d.heap, sp, Null, index);
    ChainNext(Forward(d.heap), sp, index);
    var p := d.heap[t].prev;
    var q := d.heap[t].next;
    var h1 := d.heap[p.addr := d.heap[p.addr].(next := q)];
    var r := Bypass(d, h1, t, p, q);
    UnlinkD(d.heap, sp, index);
    Establish(r.state, sp[..index] + sp[index + 1..]);
    r
  }

  lemma {:induction false} UnlinkD<T>(h: DHeap<T>, sp: seq<nat>, index: nat)
    requires Chain(Forward(h), sp) && BackChain(h, sp, Null) && 0 < index < |sp| - 1
    ensures var p := sp[index - 1];
            var t := sp[index];
            var q := sp[index + 1];
            var h1 := h[p := h[p].(next := At(q))];
            var h2 := h1[q := h1[q].(prev := At(p))];
            var h3 := h2[t := h2[t].(prev := Null)];
            var h4 := h3[t := h3[t].(next := Null)];
            var sp' := sp[..index] + sp[index + 1..];
            && Chain(Forward(h4), sp') && BackChain(h4, sp', Null)
            && Values(Forward(h4), sp') == Values(Forward(h), sp)[..index] + Values(Forward(h), sp)[index + 1..]
            && t !in sp' && h4[t] == h[t].(next := Null, prev := Null)
  {
    var p := sp[index - 1];
    var t := sp[index];
    var q := sp[index + 1];
    var h1 := h[p := h[p].(next := At(q))];
    var h2 := h1[q := h1[q].(prev := At(p))];
    var h3 := h2[t := h2[t].(prev := Null)];
    var h4 := h3[t := h3[t].(next := Null)];
    ChainDistinct(Forward(h), sp, index - 1, index);
    ChainDistinct(Forward(h), sp, index + 1, index);
    ChainDistinct(Forward(h), sp, index - 1, index + 1);
    UnlinkForward(h, p, t, q);
    UnlinkNotOn(Forward(h), sp, index);
    UnlinkDForward(h, sp, index, h4);
    UnlinkBack(h, h4, sp, index);
  }

  /** The forward half of UnlinkD: the `next` links and values of the
      shortened spine. */
  lemma {:induction false} UnlinkDForward<T>(h: DHeap<T>, sp: seq<nat>, index: nat, h4: DHeap<T>)
    requires Chain(Forward(h), sp) && 0 < index < |sp| - 1
    requires var p := sp[index - 1];
             var t := sp[index];
             var q := sp[index + 1];
             p != t && q != t && Forward(h4) == Forward(h)[p := Forward(h)[p].(next := At(q))][t := Forward(h)[t].(next := Null)]
    ensures var sp' := sp[..index] + sp[index + 1..];
            && Chain(Forward(h4), sp')
            && Values(Forward(h4), sp') == Values(Forward(h), sp)[..index] + Values(Forward(h), sp)[index + 1..]
  {
    var f := Forward(h);
    var p := sp[index - 1];
    var q := sp[index + 1];
    var f1 := f[p := f[p].(next := At(q))];
    var sp' := sp[..index] + sp[index + 1..];
    ChainNext(f, sp, index);
    LinkedList.UnlinkChain(f, sp, index);
    UnlinkNotOn(f, sp, index);
    ChainFrame(f1, Forward(h4), sp');
  }

  lemma {:induction false} UnlinkForward<T>(h: DHeap<T>, p: nat, t: nat, q: nat)
    requires p < |h| && t < |h| && q < |h| && p != t && q != t
    ensures var h1 := h[p := h[p].(next := At(q))];
            var h2 := h1[q := h1[q].(prev := At(p))];
            var h3 := h2[t := h2[t].(prev := Null)];
            var h4 := h3[t := h3[t].(next := Null)];
            Forward(h4) == Forward(h)[p := Forward(h)[p].(next := At(q))][t := Forward(h)[t].(next := Null)]
  {
    var h1 := h[p := h[p].(next := At(q))];
    var h2 := h1[q := h1[q].(prev := At(p))];
    var h3 := h2[t := h2[t].(prev := Null)];
    ForwardUpdate(h, p, h[p].(next := At(q)));
    ForwardPrev(h1, q, At(p));
    ForwardPrev(h2, t, Null);
    ForwardUpdate(h3, t, h3[t].(next := Null));
  }

  /** The removed node is not on the shortened spine. */
  lemma {:induction false} UnlinkNotOn<T>(f: Heap<T>, sp: seq<nat>, index: nat)
    requires Chain(f, sp) && index < |sp|
    ensures sp[index] !in sp[..index] + sp[index + 1..]
  {
    var sp' := sp[..index] + sp[index + 1..];
    forall k | 0 <= k < |sp'|
      ensures sp'[k] != sp[index]
    {
      if k < index {
        assert sp'[k] == sp[k];
        ChainDistinct(f, sp, k, index);
      } else {
        assert sp'[k] == sp[k + 1];
        ChainDistinct(f, sp, k + 1, index);
      }
    }
  }

  lemma {:induction false} UnlinkBack<T>(h: DHeap<T>, h4: DHeap<T>, sp: seq<nat>, index: nat)
    requires Chain(Forward(h), sp) && BackChain(h, sp, Null) && 0 < index < |sp| - 1
    requires |h4| == |h|
    requires h4[sp[index + 1]].prev == At(sp[index - 1])
    requires forall a :: 0 <= a < |h| && a != sp[index + 1] && a != sp[index] ==> h4[a].prev == h[a].prev
    ensures BackChain(h4, sp[..index] + sp[index + 1..], Null)
  {
    var s1 := sp[..index];
    var s2 := sp[index + 1..];
    assert sp == s1 + sp[index..];
    BackChainConcat(h, s1, sp[index..], Null);
    assert sp[index..][1..] == s2;
    forall i | 0 < i < |s1|
      ensures s1[i] < |h4| && h4[s1[i]].prev == h[s1[i]].prev
    {
      ChainDistinct(Forward(h), sp, i, index);
      ChainDistinct(Forward(h), sp, i, index + 1);
    }
    ChainDistinct(Forward(h), sp, 0, index);
    ChainDistinct(Forward(h), sp, 0, index + 1);
    BackChainFrame(h, h4, s1, Null, Null);
    forall i | 0 < i < |s2|
      ensures s2[i] < |h4| && h4[s2[i]].prev == h[s2[i]].prev
    {
      assert s2[i] == sp[index + 1 + i];
      ChainDistinct(Forward(h), sp, index + 1 + i, index);
      ChainDistinct(Forward(h), sp, index + 1 + i, index + 1);
    }
    BackChainFrame(h, h4, s2, At(sp[index]), At(sp[index - 1]));
    BackChainConcat(h4, s1, s2, Null);
  }

  /** `remove(index)` with the ends handled: null and no change outside
      `[0, length)`; the head is removed as by `popFirst`, the tail as by
      `pop`, and an interior node is unlinked from both neighbours. */
  function Remove<T>(d: DList<T>, index: int): (r: Detached<DList<T>>)
    requires Valid(d)
    ensures Valid(r.state)
    ensures r.node == Null <==> !(0 <= index < d.length)
    ensures r.node == Null ==> r.state == d
    ensures 0 <= index < d.length ==> r.node == At(Spine(d)[index]) && r.state.length == d.length - 1
    ensures 0 <= index < d.length ==> Contents(r.state) == Contents(d)[..index] + Contents(d)[index + 1..]
    ensures 0 <= index < d.length ==> r.node.addr !in Spine(r.state)
    ensures 0 <= index < d.length ==> r.node.addr < |r.state.heap| && r.state.heap[r.node.addr] == DNode(Contents(d)[index], Null, Null)
  {
    if index < 0 || index >= d.length then Detached(Null, d)
    else RemoveAt(d, index)
  }

  /** `remove(index)` for a position in range. */
  function RemoveAt<T>(d: DList<T>, index: int): (r: Detached<DList<T>>)
    requires Valid(d) && 0 <= index < d.length
    ensures Valid(r.state)
    ensures r.node == At(Spine(d)[index]) && r.state.length == d.length - 1
    ensures Contents(r.state) == Contents(d)[..index] + Contents(d)[index + 1..]
    ensures r.node.addr !in Spine(r.state)
    ensures r.node.addr < |r.state.heap| && r.state.heap[r.node.addr] == DNode(Contents(d)[index], Null, Null)
  {
    if index == 0 then
      RemoveAtEnds(Contents(d));
      PopFirst(d)
    else if index == d.length - 1 then
      RemoveAtEnds(Contents(d));
      PopTail(d)
    else Unlink(d, index)
  }

  /** Removing the head or the tail through the source's `remove` always
      ends in a null dereference. */
  lemma {:induction false} RemoveAsWrittenEndsFail<T>(d: DList<T>, index: int)
    requires Valid(d) && 0 <= index < d.length
    requires index == 0 || index == d.length - 1
    ensures RemoveAsWritten(d, index) == NullDeref
  {
    var sp := Spine(d);
    BackChainAt(d.heap, sp, Null, index);
    ChainNext(Forward(d.heap), sp, index);
  }

  /** Everywhere else the source's `remove` is the corrected one. */
  lemma {:induction false} RemoveAsWrittenAgrees<T>(d: DList<T>, index: int)
    requires Valid(d) && !(index == 0 || index == d.length - 1)
    ensures RemoveAsWritten(d, index) == Done(Remove(d, index))
  {
    if 0 < index < d.length - 1 {
      var sp := Spine(d);
      BackChainAt(d.heap, sp, Null, index);
      ChainNext(Forward(d.heap), sp, index);
      assert Get(d, index) == At(sp[index]);
      assert Remove(d, index) == RemoveAt(d, index) == Unlink(d, index);
    }
  }

  /** `pop` undoes `append`, returning the appended node. */
  lemma {:induction false} AppendThenPop<T>(d: DList<T>, value: T)
    requires Valid(d)
    ensures var a := Append(d, value).state;
            var r := Pop(a);
            r.node == At(|d.heap|) && Contents(r.state) == Contents(d) && r.state.heap[r.node.addr].value == value
  {
    assert (Contents(d) + [value])[..d.length] == Contents(d);
  }

  /** `popFirst` undoes `prepend`, returning the prepended node. */
  lemma {:induction false} PrependThenPopFirst<T>(d: DList<T>, value: T)
    requires Valid(d)
    ensures var a := Prepend(d, value).state;
            var r := PopFirst(a);
            r.node == At(|d.heap|) && Contents(r.state) == Contents(d) && r.state.heap[r.node.addr].value == value
  {
    assert ([value] + Contents(d))[1..] == Contents(d);
  }

  /** `remove(index)` undoes a successful `insert(index, value)`. */
  lemma {:induction false} InsertThenRemove<T>(d: DList<T>, index: int, value: T)
    requires Valid(d) && 0 <= index <= d.length
    ensures Insert(d, index, value).ok
    ensures var r := Remove(Insert(d, index, value).state, index);
            Contents(r.state) == Contents(d) && r.node != Null && r.state.heap[r.node.addr].value == value
  {
    var s := Contents(d);
    var t := s[..index] + [value] + s[index..];
    assert t[..index] + t[index + 1..] == s;
    assert t[index] == value;
  }

  /** After a successful `setValue(index, value)`, `get(index)` yields a
      node holding `value`. */
  lemma {:induction false} SetValueThenGet<T>(d: DList<T>, index: int, value: T)
    requires Valid(d) && 0 <= index < d.length
    ensures var r := SetValue(d, index, value).state;
            var p := Get(r, index);
            p != Null && r.heap[p.addr].value == value
  {
  }

  /** The integer list of the test driver: `{12}`, append 13, append 14,
      prepend 11 holds 11, 12, 13, 14. Extending the example with the
      `pop` and `popFirst` the driver applies to its string list, they
      return 14 and 11 and leave 12, 13. */
  lemma {:induction false} DriverExample()
    ensures var d := Prepend(Append(Append(Create(12), 13).state, 14).state, 11).state;
            && Contents(d) == [11, 12, 13, 14]
            && var p := Pop(d);
               && p.state.heap[p.node.addr].value == 14
               && var q := PopFirst(p.state);
                  q.state.heap[q.node.addr].value == 11 && Contents(q.state) == [12, 13]
  {
    var d := Prepend(Append(Append(Create(12), 13).state, 14).state, 11).state;
    assert Contents(d) == [11, 12, 13, 14];
    var p := Pop(d);
    assert Contents(p.state) == [11, 12, 13];
    var q := PopFirst(p.state);
    assert Contents(q.state) == [12, 13];
  }
}
