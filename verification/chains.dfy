/** Pointer-linked chains of nodes in an explicit heap.

    The C++ containers allocate every node with `new` (or `make_shared`) and
    link them with raw `next` pointers. Here the heap is an arena: a sequence
    of nodes indexed by address, where `new` appends one node at address
    `|heap|`. A `delete`d node simply becomes unreachable.

    The abstraction used by every container is the SPINE: the sequence of
    addresses visited by following `next` from the first node. A chain is
    well formed when its addresses are in the heap, pairwise distinct (no
    cycle), each node's `next` names its successor, and the last node's
    `next` is null.
 */
module Chains {

  /** A node pointer; `Null` is `nullptr`. */
  datatype Ptr = Null | At(addr: nat)

  /** A singly linked node: `struct Node { T value; Node* next; }`. */
  datatype Node<T> = Node(value: T, next: Ptr)

  type Heap<T> = seq<Node<T>>

  /** The result of running code that may dereference a null pointer. */
  datatype Outcome<S> = Done(state: S) | NullDeref

  /** A `bool`-returning mutator: whether it succeeded, and the state after. */
  datatype Ack<S> = Ack(ok: bool, state: S)

  /** A mutator that returns a `Node*`: the pointer, and the state after. */
  datatype Detached<S> = Detached(node: Ptr, state: S)

  /** Pointer to position `j` of a spine, or null past its end. */
  function PtrAt(sp: seq<nat>, j: nat): (p: Ptr)
    ensures p == Null <==> j >= |sp|
    ensures j < |sp| ==> p == At(sp[j])
  {
    if j < |sp| then At(sp[j]) else Null
  }

  /** Pointer to the last position of a spine, or null when it is empty. */
  function Last(sp: seq<nat>): (p: Ptr)
    ensures p == Null <==> |sp| == 0
    ensures |sp| > 0 ==> p == At(sp[|sp| - 1])
  {
    if |sp| == 0 then Null else At(sp[|sp| - 1])
  }

  predicate InHeap<T>(h: Heap<T>, sp: seq<nat>) {
    forall i :: 0 <= i < |sp| ==> sp[i] < |h|
  }

  predicate Distinct(sp: seq<nat>) {
    forall i, j :: 0 <= i < j < |sp| ==> sp[i] != sp[j]
  }

  /** Every node on the spine points at the next one; the last at null. */
  predicate Linked<T>(h: Heap<T>, sp: seq<nat>)
    requires InHeap(h, sp)
  {
    forall i {:trigger h[sp[i]]} :: 0 <= i < |sp| ==> h[sp[i]].next == PtrAt(sp, i + 1)
  }

  /** The three facts that make `sp` a well-formed chain in `h`. */
  predicate ChainFacts<T>(h: Heap<T>, sp: seq<nat>) {
    InHeap(h, sp) && Distinct(sp) && Linked(h, sp)
  }

  /** A well-formed chain, defined node by node from the front: the first
      address is in the heap, does not recur, points at the second, and the
      rest is a chain. */
  predicate Chain<T>(h: Heap<T>, sp: seq<nat>)
    ensures Chain(h, sp) ==> InHeap(h, sp)
    decreases |sp|
  {
    |sp| == 0 ||
    (sp[0] < |h| && sp[0] !in sp[1..] && h[sp[0]].next == PtrAt(sp, 1) && Chain(h, sp[1..]))
  }

  /** The recursive and the quantified definitions agree. */
  lemma {:induction false} ChainIff<T>(h: Heap<T>, sp: seq<nat>)
    ensures Chain(h, sp) <==> ChainFacts(h, sp)
  {
    if Chain(h, sp) {
      ChainGivesFacts(h, sp);
    }
    if ChainFacts(h, sp) {
      FactsGiveChain(h, sp);
    }
  }

  lemma {:induction false} ChainGivesFacts<T>(h: Heap<T>, sp: seq<nat>)
    requires Chain(h, sp)
    ensures ChainFacts(h, sp)
    decreases |sp|
  {
    if |sp| > 0 {
      var tl := sp[1..];
      ChainGivesFacts(h, tl);
      forall i | 0 <= i < |sp|
        ensures h[sp[i]].next == PtrAt(sp, i + 1)
      {
        if i > 0 {
          assert sp[i] == tl[i - 1];
          assert h[tl[i - 1]].next == PtrAt(tl, i);
          if i + 1 < |sp| {
            assert tl[i] == sp[i + 1];
          }
        }
      }
      forall i, j | 0 <= i < j < |sp|
        ensures sp[i] != sp[j]
      {
        assert sp[j] == tl[j - 1];
        if i > 0 {
          assert sp[i] == tl[i - 1];
        }
      }
    }
  }

  lemma {:induction false} FactsGiveChain<T>(h: Heap<T>, sp: seq<nat>)
    requires ChainFacts(h, sp)
    ensures Chain(h, sp)
    decreases |sp|
  {
    if |sp| > 0 {
      var tl := sp[1..];
      forall i | 0 <= i < |tl|
        ensures tl[i] < |h| && h[tl[i]].next == PtrAt(tl, i + 1)
      {
        assert tl[i] == sp[i + 1];
        assert h[sp[i + 1]].next == PtrAt(sp, i + 2);
        if i + 1 < |tl| {
          assert tl[i + 1] == sp[i + 2];
        }
      }
      forall i, j | 0 <= i < j < |tl|
        ensures tl[i] != tl[j]
      {
        assert tl[i] == sp[i + 1] && tl[j] == sp[j + 1];
      }
      FactsGiveChain(h, tl);
      assert h[sp[0]].next == PtrAt(sp, 1);
      forall k | 0 <= k < |tl|
        ensures tl[k] != sp[0]
      {
        assert tl[k] == sp[k + 1];
      }
    }
  }

  /** The nodes of a chain are pairwise distinct. */
  lemma {:induction false} ChainDistinct<T>(h: Heap<T>, sp: seq<nat>, i: nat, j: nat)
    requires Chain(h, sp)
    ensures i < |sp| && j < |sp| && i != j ==> sp[i] != sp[j]
  {
    ChainIff(h, sp);
  }

  /** A node of a chain does not occur before its own position. */
  lemma {:induction false} ChainNotBefore<T>(h: Heap<T>, sp: seq<nat>, i: nat)
    requires Chain(h, sp) && i < |sp|
    ensures sp[i] !in sp[..i]
  {
    ChainIff(h, sp);
  }

  /** The successor link of one node of a chain. */
  lemma {:induction false} ChainNext<T>(h: Heap<T>, sp: seq<nat>, i: nat)
    requires Chain(h, sp)
    ensures i < |sp| ==> sp[i] < |h| && h[sp[i]].next == PtrAt(sp, i + 1)
  {
    ChainIff(h, sp);
  }

  /** The values stored along a spine, in order. */
  function Values<T>(h: Heap<T>, sp: seq<nat>): (vs: seq<T>)
    requires InHeap(h, sp)
    ensures |vs| == |sp|
    ensures forall i {:trigger vs[i]} :: 0 <= i < |sp| ==> vs[i] == h[sp[i]].value
    decreases |sp|
  {
    if |sp| == 0 then [] else [h[sp[0]].value] + Values(h, sp[1..])
  }

  /** The addresses visited by following `next` from `p` for at most `n`
      steps, stopping early at null or at an address outside the heap. */
  function Walk<T>(h: Heap<T>, p: Ptr, n: nat): seq<nat>
    decreases n
  {
    if n == 0 then []
    else match p
      case Null => []
      case At(a) => if a < |h| then [a] + Walk(h, h[a].next, n - 1) else []
  }

  /** `temp = temp->next`, `k` times. The model never advances from null
      (the lemmas below show it); that case yields null. */
  function Advance<T>(h: Heap<T>, p: Ptr, k: nat): Ptr
    decreases k
  {
    if k == 0 then p
    else match p
      case Null => Null
      case At(a) => if a < |h| then Advance(h, h[a].next, k - 1) else Null
  }

  /** Walking a well-formed chain from position `j` for at least as many
      steps as it has nodes left yields exactly the rest of the spine. */
  lemma {:induction false} WalkChain<T>(h: Heap<T>, sp: seq<nat>, j: nat, n: nat)
    requires Chain(h, sp)
    requires j <= |sp| && |sp| - j <= n
    ensures Walk(h, PtrAt(sp, j), n) == sp[j..]
    decreases |sp| - j
  {
    if j < |sp| {
      ChainNext(h, sp, j);
      WalkChain(h, sp, j + 1, n - 1);
    }
  }

  /** Advancing `k` steps along a well-formed chain from position `j` lands
      on position `j + k` (null exactly when that is the end). */
  lemma {:induction false} AdvanceChain<T>(h: Heap<T>, sp: seq<nat>, j: nat, k: nat)
    requires Chain(h, sp)
    requires j + k <= |sp|
    ensures Advance(h, PtrAt(sp, j), k) == PtrAt(sp, j + k)
    decreases k
  {
    if k > 0 {
      ChainNext(h, sp, j);
      AdvanceChain(h, sp, j + 1, k - 1);
    }
  }

  /** A chain depends only on the nodes of its own spine. */
  lemma {:induction false} ChainFrame<T>(h: Heap<T>, h': Heap<T>, sp: seq<nat>)
    requires Chain(h, sp)
    requires forall i :: 0 <= i < |sp| ==> sp[i] < |h'| && h'[sp[i]] == h[sp[i]]
    ensures Chain(h', sp)
    ensures Values(h', sp) == Values(h, sp)
  {
    ChainIff(h, sp);
    ChainIff(h', sp);
  }

  /** Dropping the first node of a chain leaves a chain. */
  lemma {:induction false} ChainSuffix<T>(h: Heap<T>, sp: seq<nat>)
    requires Chain(h, sp) && |sp| > 0
    ensures Chain(h, sp[1..]) && Values(h, sp[1..]) == Values(h, sp)[1..]
  {
    assert InHeap(h, sp[1..]);
  }

  /** Splicing a fresh address into a spine keeps it duplicate-free. */
  lemma {:induction false} DistinctInsert(sp: seq<nat>, index: nat, n: nat)
    requires Distinct(sp) && index <= |sp| && n !in sp
    ensures Distinct(sp[..index] + [n] + sp[index..])
  {
    var sp' := sp[..index] + [n] + sp[index..];
    forall i, j | 0 <= i < j < |sp'|
      ensures sp'[i] != sp'[j]
    {
      if j < index {
        assert sp'[i] == sp[i] && sp'[j] == sp[j];
      } else if j == index {
        assert sp'[j] == n && sp'[i] == sp[i];
      } else if i < index {
        assert sp'[i] == sp[i] && sp'[j] == sp[j - 1];
      } else if i == index {
        assert sp'[i] == n && sp'[j] == sp[j - 1];
      } else {
        assert sp'[i] == sp[i - 1] && sp'[j] == sp[j - 1];
      }
    }
  }

  /** Dropping one address from a spine keeps it duplicate-free. */
  lemma {:induction false} DistinctRemove(sp: seq<nat>, index: nat)
    requires Distinct(sp) && index < |sp|
    ensures Distinct(sp[..index] + sp[index + 1..])
  {
    var sp' := sp[..index] + sp[index + 1..];
    forall i, j | 0 <= i < j < |sp'|
      ensures sp'[i] != sp'[j]
    {
      var i0 := if i < index then i else i + 1;
      var j0 := if j < index then j else j + 1;
      assert sp'[i] == sp[i0] && sp'[j] == sp[j0];
    }
  }

  /** The values along a spine with one address spliced in. */
  lemma {:induction false} ValuesInsert<T>(h: Heap<T>, h': Heap<T>, sp: seq<nat>, index: nat, n: nat)
    requires index <= |sp| && InHeap(h, sp) && InHeap(h', sp) && n < |h'|
    requires InHeap(h', sp[..index] + [n] + sp[index..])
    requires forall k :: 0 <= k < |sp| ==> h'[sp[k]].value == h[sp[k]].value
    ensures Values(h', sp[..index] + [n] + sp[index..])
         == Values(h, sp)[..index] + [h'[n].value] + Values(h, sp)[index..]
  {
    var sp' := sp[..index] + [n] + sp[index..];
    var vs := Values(h, sp);
    var ws := vs[..index] + [h'[n].value] + vs[index..];
    forall k | 0 <= k < |sp'|
      ensures Values(h', sp')[k] == ws[k]
    {
      if k < index {
        assert sp'[k] == sp[k] && ws[k] == vs[k];
      } else if k > index {
        assert sp'[k] == sp[k - 1] && ws[k] == vs[k - 1];
      }
    }
  }

  /** Dropping one address keeps a spine inside the heap. */
  lemma {:induction false} InHeapRemove<T>(h: Heap<T>, sp: seq<nat>, index: nat)
    requires index < |sp| && InHeap(h, sp)
    ensures InHeap(h, sp[..index] + sp[index + 1..])
  {
    var sp' := sp[..index] + sp[index + 1..];
    forall k | 0 <= k < |sp'|
      ensures sp'[k] < |h|
    {
      if k >= index {
        assert sp'[k] == sp[k + 1];
      }
    }
  }

  /** The values along a spine with one address dropped. */
  lemma {:induction false} ValuesRemove<T>(h: Heap<T>, h': Heap<T>, sp: seq<nat>, index: nat)
    requires index < |sp| && InHeap(h, sp) && InHeap(h', sp)
    requires InHeap(h', sp[..index] + sp[index + 1..])
    requires forall k :: 0 <= k < |sp| && k != index ==> h'[sp[k]].value == h[sp[k]].value
    ensures Values(h', sp[..index] + sp[index + 1..])
         == Values(h, sp)[..index] + Values(h, sp)[index + 1..]
  {
    var sp' := sp[..index] + sp[index + 1..];
    var vs := Values(h, sp);
    var ws := vs[..index] + vs[index + 1..];
    forall k | 0 <= k < |sp'|
      ensures Values(h', sp')[k] == ws[k]
    {
      if k < index {
        assert sp'[k] == sp[k] && ws[k] == vs[k];
      } else {
        assert sp'[k] == sp[k + 1] && ws[k] == vs[k + 1];
      }
    }
  }

  /** The reverse of a sequence. */
  function Reversed<X>(s: seq<X>): (r: seq<X>)
    ensures |r| == |s|
    ensures forall k :: 0 <= k < |s| ==> r[k] == s[|s| - 1 - k]
  {
    seq(|s|, k requires 0 <= k < |s| => s[|s| - 1 - k])
  }

  lemma {:induction false} DistinctReversed(sp: seq<nat>)
    requires Distinct(sp)
    ensures Distinct(Reversed(sp))
  {
    var rs := Reversed(sp);
    forall i, j | 0 <= i < j < |rs|
      ensures rs[i] != rs[j]
    {
      assert rs[i] == sp[|sp| - 1 - i] && rs[j] == sp[|sp| - 1 - j];
    }
  }

  lemma {:induction false} ValuesReversed<T>(h: Heap<T>, h': Heap<T>, sp: seq<nat>)
    requires InHeap(h, sp) && InHeap(h', sp)
    requires forall k :: 0 <= k < |sp| ==> h'[sp[k]].value == h[sp[k]].value
    ensures InHeap(h', Reversed(sp))
    ensures Values(h', Reversed(sp)) == Reversed(Values(h, sp))
  {
    var rs := Reversed(sp);
    assert forall k :: 0 <= k < |rs| ==> rs[k] == sp[|sp| - 1 - k];
    forall k | 0 <= k < |rs|
      ensures Values(h', rs)[k] == Reversed(Values(h, sp))[k]
    {
      assert rs[k] == sp[|sp| - 1 - k];
    }
  }

  /** Reversal keeps the members of a sequence. */
  lemma {:induction false} ReversedMembers<X>(s: seq<X>, x: X)
    ensures x in Reversed(s) <==> x in s
  {
    var n := |s|;
    if x in s {
      var j :| 0 <= j < n && s[j] == x;
      assert Reversed(s)[n - 1 - j] == x;
    }
    if x in Reversed(s) {
      var k :| 0 <= k < n && Reversed(s)[k] == x;
      assert s[n - 1 - k] == x;
    }
  }

  /** Reversing twice gives back the original sequence. */
  lemma {:induction false} ReversedInvolution<X>(s: seq<X>)
    ensures Reversed(Reversed(s)) == s
  {
  }

  /** Inserting at either end of a sequence is prepending or appending. */
  lemma {:induction false} InsertAtEnds<X>(s: seq<X>, v: X)
    ensures s[..0] + [v] + s[0..] == [v] + s
    ensures s[..|s|] + [v] + s[|s|..] == s + [v]
  {
  }

  /** Removing at either end of a sequence drops its first or last element. */
  lemma {:induction false} RemoveAtEnds<X>(s: seq<X>)
    requires |s| > 0
    ensures s[..0] + s[1..] == s[1..]
    ensures s[..|s| - 1] + s[|s|..] == s[..|s| - 1]
  {
  }
}
