/** The stack `sjd::Stack<T>` (LL/stack.h).

    State: the heap of nodes, `m_top` and `m_height`. The stack is Valid
    when following `next` from the top for `m_height` steps visits exactly
    `m_height` distinct nodes, the last of which has a null `next`. Its
    Contents are the values along that walk, top first.
 */
module Stack {
  import opened Chains
  import LinkedList

  datatype Stack<T> = Stack(heap: Heap<T>, top: Ptr, height: int)

  /** The addresses reached from the top in `height` steps. */
  function Spine<T>(s: Stack<T>): seq<nat> {
    if s.height < 0 then [] else Walk(s.heap, s.top, s.height)
  }

  /** The invariant every operation keeps. */
  predicate Valid<T>(s: Stack<T>) {
    && s.height >= 0
    && |Spine(s)| == s.height
    && Chain(s.heap, Spine(s))
    && s.top == PtrAt(Spine(s), 0)
  }

  /** The values on the stack, top first. */
  function Contents<T>(s: Stack<T>): seq<T>
    requires Valid(s)
  {
    Values(s.heap, Spine(s))
  }

  lemma {:induction false} Establish<T>(s: Stack<T>, sp: seq<nat>)
    requires Chain(s.heap, sp)
    requires s.height == |sp| && s.top == PtrAt(sp, 0)
    ensures Valid(s) && Spine(s) == sp
  {
    WalkChain(s.heap, sp, 0, |sp|);
  }

  /** `Stack(value)`: a single node on top. */
  function Create<T>(value: T): (s: Stack<T>)
    ensures Valid(s) && Contents(s) == [value] && s.height == 1
  {
    var s := Stack([Node(value, Null)], At(0), 1);
    Establish(s, [0]);
    s
  }

  /** `peek()`: the top node, null on an empty stack. */
  function Peek<T>(s: Stack<T>): (p: Ptr)
    requires Valid(s)
    ensures p == Null <==> s.height == 0
    ensures p != Null ==> p.addr < |s.heap| && s.heap[p.addr].value == Contents(s)[0]
  {
    assert s.height > 0 ==> Contents(s)[0] == s.heap[Spine(s)[0]].value;
    s.top
  }

  /** `getHeight()`: the number of values on the stack. */
  function GetHeight<T>(s: Stack<T>): (n: int)
    requires Valid(s)
    ensures n == |Contents(s)|
  {
    s.height
  }

  /** `push(value)`: a new node pointing at the old top becomes the top.
      Always returns true. */
  function Push<T>(s: Stack<T>, value: T): (r: Ack<Stack<T>>)
    requires Valid(s)
    ensures r.ok && Valid(r.state)
    ensures Contents(r.state) == [value] + Contents(s)
    ensures r.state.height == s.height + 1 && r.state.top == At(|s.heap|)
  {
    var sp := Spine(s);
    var r := Stack(s.heap + [Node(value, s.top)], At(|s.heap|), s.height + 1);
    LinkedList.PrependChain(s.heap, sp, value);
    Establish(r, [|s.heap|] + sp);
    Ack(true, r)
  }

  /** `pop()`: the top node is detached with a null `next` and its
      successor becomes the top. The source does not check for an empty
      stack: there `m_top -> next` dereferences null. */
  function Pop<T>(s: Stack<T>): (r: Outcome<Detached<Stack<T>>>)
    requires Valid(s)
    ensures r == NullDeref <==> s.height == 0
    ensures r.Done? ==> var d := r.state;
            && Valid(d.state) && d.state.height == s.height - 1
            && Contents(d.state) == Contents(s)[1..]
            && d.node == s.top && d.node.At? && d.node.addr !in Spine(d.state)
            && d.node.addr < |d.state.heap| && d.state.heap[d.node.addr] == Node(Contents(s)[0], Null)
  {
    var sp := Spine(s);
    if s.top == Null then NullDeref
    else
      var t := s.top.addr;
      var h := s.heap[t := s.heap[t].(next := Null)];
      var r := Stack(h, s.heap[t].next, s.height - 1);
      PopChain(s.heap, sp);
      Establish(r, sp[1..]);
      Done(Detached(s.top, r))
  }

  /** Cutting the top node loose leaves the rest of the chain intact. */
  lemma {:induction false} PopChain<T>(h: Heap<T>, sp: seq<nat>)
    requires Chain(h, sp) && |sp| > 0
    ensures var h' := h[sp[0] := h[sp[0]].(next := Null)];
            && Chain(h', sp[1..]) && Values(h', sp[1..]) == Values(h, sp)[1..]
            && h[sp[0]].next == PtrAt(sp[1..], 0) && sp[0] !in sp[1..]
  {
    var t := sp[0];
    var h' := h[t := h[t].(next := Null)];
    ChainNext(h, sp, 0);
    ChainSuffix(h, sp);
    ChainFrame(h, h', sp[1..]);
  }

  /** Last in, first out: `pop` after `push(value)` returns the pushed node,
      holding `value`, and leaves the stack's contents as they were. */
  lemma {:induction false} PushThenPop<T>(s: Stack<T>, value: T)
    requires Valid(s)
    ensures var p := Pop(Push(s, value).state);
            && p.Done? && p.state.node == At(|s.heap|)
            && p.state.state.heap[|s.heap|].value == value
            && Contents(p.state.state) == Contents(s)
  {
    assert ([value] + Contents(s))[1..] == Contents(s);
  }

  /** The example of the class comment: `{3}`, then `push(4)` holds 4 over
      3; `pop` returns the node holding 4 and leaves 3. */
  lemma {:induction false} HeaderExample()
    ensures var s := Push(Create(3), 4).state;
            && Contents(s) == [4, 3]
            && var p := Pop(s);
               p.Done? && p.state.state.heap[p.state.node.addr].value == 4 && Contents(p.state.state) == [3]
  {
    var s := Push(Create(3), 4).state;
    assert Contents(s) == [4, 3];
    assert [4, 3][1..] == [3];
  }
}
