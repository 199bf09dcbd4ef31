/** A stack of elements of the same size in a chain of nodes; the first node may lie in a buffer of the caller. */
module SegmentedStack {
  import opened Sequences

  /** The size of the head of a node. */
  const HEADER: nat := 24
  const DEFAULT_NODE_SIZE: nat := 128

  /** One node; sizes are in bytes. */
  class StackNode<T> {
    const prev: StackNode?<T>
    const allocsize: nat
    var arsize: nat
    /** The elements in the memory of the node. */
    var elems: seq<T>
    /** The elements in the nodes below; these are full and stay as they are as long as this node is there. */
    ghost const before: seq<T>
    /** The number of nodes below. */
    ghost const depth: nat

    constructor (prev: StackNode?<T>, allocsize: nat, ghost before: seq<T>, ghost depth: nat)
      ensures this.prev == prev && this.allocsize == allocsize && this.before == before && this.depth == depth
      ensures arsize == HEADER && elems == []
    {
      this.prev, this.allocsize, this.before, this.depth, arsize, elems := prev, allocsize, before, depth, HEADER, [];
    }

    /** The bytes used are those of the head and the elements, and there is place for at least one. */
    ghost predicate Valid(elemsize: nat)
      reads this
    {
      arsize == HEADER + |elems| * elemsize <= allocsize && HEADER + elemsize <= allocsize
    }

    predicate IsFull(elemsize: nat)
      reads this
    {
      arsize + elemsize > allocsize
    }
  }

  class Stack<T> {
    var top: StackNode?<T>
    const buf: StackNode?<T>
    const elemsize: nat
    const nodesize: nat
    var size: nat
    ghost var Contents: seq<T>
    /** The nodes from the lowest to the top one. */
    ghost var Chain: seq<StackNode<T>>

    /** Every node below the top one is full and not empty. */
    ghost predicate NodeAt(i: nat)
      reads this`Chain, Chain
    {
      i < |Chain| ==>
        && Chain[i].Valid(elemsize) && Chain[i].depth == i
        && (i == 0 ==> Chain[i].prev == null && Chain[i].before == [])
        && (i > 0 ==> Chain[i].prev == Chain[i - 1] && Chain[i].prev != null && Chain[i] != buf)
        && (i > 0 ==> Chain[i].before == Chain[i - 1].before + Chain[i - 1].elems)
        && (i + 1 < |Chain| ==> Chain[i].IsFull(elemsize) && Chain[i].elems != [])
    }

    ghost predicate Valid()
      reads this, Chain
    {
      && elemsize > 0 && nodesize > 0 && size == |Contents|
      && (forall i: nat {:trigger NodeAt(i)} :: NodeAt(i))
      && (if Chain == [] then top == null && Contents == []
          else top == Chain[|Chain| - 1] && Contents == Chain[|Chain| - 1].before + Chain[|Chain| - 1].elems)
    }

    /** A buffer that is too small is not used. */
    constructor (elemsize: nat, nodesize: nat, bufsize: nat)
      requires elemsize > 0
      ensures Valid() && fresh(Chain) && Contents == []
      ensures buf == top && (top == null <==> HEADER + elemsize > bufsize)
      ensures this.elemsize == elemsize && this.nodesize == if nodesize != 0 then nodesize else DEFAULT_NODE_SIZE
    {
      if HEADER + elemsize > bufsize {
        buf, top, Chain := null, null, [];
      } else {
        var node := new StackNode<T>(null, bufsize, [], 0);
        buf, top, Chain := node, node, [node];
      }
      this.elemsize := elemsize;
      this.nodesize := if nodesize != 0 then nodesize else DEFAULT_NODE_SIZE;
      size, Contents := 0, [];
    }

    /** Pushes an element; nodeOk is whether a node can be allocated. */
    method Push(x: T, nodeOk: bool) returns (ok: bool)
      requires Valid()
      modifies this, top
      ensures Valid() && forall n :: n in Chain ==> n in old(Chain) || fresh(n)
      ensures ok <==> nodeOk || (old(top) != null && old(top.arsize) + elemsize <= old(top).allocsize)
      ensures Contents == if ok then old(Contents) + [x] else old(Contents)
      ensures old(top) == null && ok ==> top != null && fresh(top) && top.elems == [x] && top.allocsize == HEADER + nodesize * elemsize
      ensures old(top) != null && old(top.arsize) + elemsize <= old(top).allocsize ==> top == old(top) && top.elems == old(top.elems) + [x]
    {
      if Chain != [] { assert NodeAt(|Chain| - 1); }
      if top == null || top.arsize + elemsize > top.allocsize {
        if !nodeOk { return false; }
        AddNode();
      }
      Store(x);
      return true;
    }

    /** Puts an empty node on a full one or on none. */
    method AddNode()
      requires Valid() && (top != null ==> top.IsFull(elemsize))
      modifies this`top, this`Chain
      ensures Valid() && Contents == old(Contents) && top != null && fresh(top) && Chain == old(Chain) + [top] && !top.IsFull(elemsize)
      ensures top.elems == [] && top.allocsize == HEADER + nodesize * elemsize
    {
      var mm := HEADER + nodesize * elemsize;
      Times(nodesize, elemsize);
      if Chain != [] { assert NodeAt(|Chain| - 1); }
      var newnode := new StackNode<T>(top, mm, Contents, |Chain|);
      top := newnode;
      Chain := Chain + [newnode];
      forall i: nat ensures NodeAt(i) { var before := old(NodeAt(i)); }
    }

    method Store(x: T)
      requires Valid() && top != null && !top.IsFull(elemsize)
      modifies this`size, this`Contents, top
      ensures Valid() && Contents == old(Contents) + [x] && top.elems == old(top.elems) + [x]
    {
      assert NodeAt(|Chain| - 1);
      OneMore(|top.elems|, elemsize);
      top.elems := top.elems + [x];
      top.arsize := top.arsize + elemsize;
      size := size + 1;
      Contents := Contents + [x];
      forall i: nat ensures NodeAt(i) { var before, below := old(NodeAt(i)), old(i == 0 || NodeAt(i - 1)); }
    }

    lemma {:induction false} Times(n: nat, e: nat)
      requires n > 0
      ensures n * e >= e
    {
    }

    lemma {:induction false} OneMore(n: nat, e: nat)
      ensures (n + 1) * e == n * e + e
    {
    }

    /** Used bytes behind the head mean elements. */
    lemma {:induction false} UsedMeansElems(n: StackNode<T>)
      requires n.Valid(elemsize) && elemsize > 0
      ensures n.arsize == HEADER <==> n.elems == []
      ensures n.arsize >= HEADER + elemsize <==> n.elems != []
    {
      if n.elems != [] { Times(|n.elems|, elemsize); }
    }

    /** Pops the last element pushed. */
    method Pop() returns (res: Option<T>)
      requires Valid()
      modifies this, Chain
      ensures Valid() && Chain <= old(Chain)
      ensures res.None? <==> old(Contents) == []
      ensures Contents + (if res.Some? then [res.value] else []) == old(Contents)
    {
      if size == 0 { return None; }
      assert Chain != [] && NodeAt(|Chain| - 1);
      UsedMeansElems(top);
      while top.arsize == HEADER
        invariant Valid() && Chain != [] && Chain <= old(Chain) && Contents == old(Contents) && size > 0
        modifies this`top, this`Chain
        decreases |Chain|
      {
        assert NodeAt(|Chain| - 1);
        UsedMeansElems(top);
        if top == buf { return None; }
        DropTop();
      }
      assert NodeAt(|Chain| - 1);
      UsedMeansElems(top);
      if top.arsize < HEADER + elemsize { return None; }
      var x := Take();
      return Some(x);
    }

    /** Frees the top node, which is empty, but not the lowest. */
    method DropTop()
      requires Valid() && top != null && top.elems == [] && Contents != []
      modifies this`top, this`Chain
      ensures Valid() && Contents == old(Contents) && |Chain| > 0 && Chain == old(Chain)[..|old(Chain)| - 1]
    {
      assert NodeAt(|Chain| - 1);
      assert NodeAt(|Chain| - 2);
      top := top.prev;
      Chain := Chain[..|Chain| - 1];
      forall i: nat ensures NodeAt(i) { var before := old(NodeAt(i)); }
    }

    method Take() returns (x: T)
      requires Valid() && top != null && top.elems != []
      modifies this`size, this`Contents, top
      ensures Valid() && Contents + [x] == old(Contents)
    {
      assert NodeAt(|Chain| - 1);
      OneMore(|top.elems| - 1, elemsize);
      x := top.elems[|top.elems| - 1];
      top.elems := top.elems[..|top.elems| - 1];
      top.arsize := top.arsize - elemsize;
      size := size - 1;
      Contents := Contents[..|Contents| - 1];
      forall i: nat ensures NodeAt(i) { var before, below := old(NodeAt(i)), old(i == 0 || NodeAt(i - 1)); }
    }

    /** What is stored up to a node is the beginning of the contents. */
    lemma {:induction false} NodeIsPrefix(i: nat)
      requires Valid() && i < |Chain|
      ensures Chain[i].before + Chain[i].elems <= Contents
      ensures i > 0 ==> Chain[i].prev == Chain[i - 1] && Chain[i].before == Chain[i - 1].before + Chain[i - 1].elems
      ensures i == 0 ==> Chain[i].prev == null && Chain[i].before == []
      ensures Chain[i].Valid(elemsize)
      decreases |Chain| - i
    {
      assert NodeAt(i);
      if i + 1 < |Chain| {
        NodeIsPrefix(i + 1);
      }
    }

    /** All elements from that node on that is the lowest of some uppermost nodes. */
    ghost predicate IsNodeCount(nn: nat)
      reads this, Chain
    {
      nn == 0 || exists b :: 0 <= b < |Chain| && nn + |Chain[b].before| == |Contents|
    }

    /** Copies the uppermost elements in the order in which they were pushed. The loop over a node does not look at the
        count, so below zero it writes outside of the result: stray has the places, which as unsigned numbers are huge. */
    method TopN(dest: array<T>, nn: nat) returns (ok: bool, stray: seq<int>)
      requires Valid() && (nn <= size ==> nn <= dest.Length)
      modifies dest
      ensures ok <==> nn <= |Contents| && top != null && IsNodeCount(nn)
      ensures stray == BelowZero(if nn <= |Contents| && !IsNodeCount(nn) then |Contents| - nn else 0)
      ensures nn <= |Contents| ==> dest[..nn] == Contents[|Contents| - nn..]
      ensures forall j :: (if nn <= |Contents| then nn else 0) <= j < dest.Length ==> dest[j] == old(dest[j])
    {
      stray := [];
      if nn > size { return false, []; }
      var nd := top;
      if nd == null { return false, []; }
      var n;
      n, stray := CopyNodes(dest, nd, nn);
      return n == 0, stray;
    }

    /** The nodes from the top one on, as long as the count is not zero. */
    method CopyNodes(dest: array<T>, first: StackNode<T>, nn: nat) returns (n: int, stray: seq<int>)
      requires Valid() && first == top && nn <= |Contents| && nn <= dest.Length
      modifies dest
      ensures n == (if IsNodeCount(nn) then 0 else nn - |Contents|) && (n == 0 <==> IsNodeCount(nn)) && Copied(dest[..], old(dest[..]), nn, n, stray)
    {
      hide Copied, NoneFrom, IsNodeCount, NodeAt;
      var nd := first;
      ghost var i, was := |Chain| - 1, dest[..];
      n, stray := nn, [];
      NothingCopied(was, nn);
      NodeIsPrefix(i);
      while n != 0
        invariant 0 <= i < |Chain| && nd == Chain[i] && n + |Contents| - nn == |nd.before| + |nd.elems|
        invariant Copied(dest[..], was, nn, n, stray) && NoneFrom(nn, i + 2) && (nn == 0 ==> n == 0)
        modifies dest
        decreases i
      {
        NodeIsPrefix(i);
        OneMoreNode(nn, i, n);
        n, stray := CopyNode(dest, nd, n, stray, nn, was);
        if nd.prev == null { break; }
        NodeIsPrefix(i - 1);
        nd := nd.prev;
        i := i - 1;
      }
      CountAtEnd(nn, i, n);
    }

    lemma {:induction false} NothingCopied(was: seq<T>, nn: nat)
      requires Valid() && nn <= |was| && nn <= |Contents|
      ensures Copied(was, was, nn, nn, []) && NoneFrom(nn, |Chain| + 1)
    {
    }

    /** What has been written when the count is n: the elements from place n on, those below zero outside of the result. */
    ghost predicate Copied(now: seq<T>, before: seq<T>, nn: nat, n: int, stray: seq<int>)
      reads this`Contents
    {
      && |now| == |before| && nn <= |before| && nn <= |Contents| && nn - |Contents| <= n <= nn
      && (forall j :: 0 <= j < |before| && n <= j < nn ==> now[j] == Contents[|Contents| - nn + j])
      && (forall j :: 0 <= j < |before| && !(n <= j < nn) ==> now[j] == before[j])
      && stray == BelowZero(if n < 0 then -n else 0)
    }

    /** The number does not end at the beginning of the nodes from place i on. */
    ghost predicate NoneFrom(nn: nat, i: nat)
      reads this, Chain
    {
      forall b: nat :: i <= b < |Chain| ==> nn + |Chain[b].before| != |Contents|
    }

    /** The count is not zero behind a node, so the number does not end there. */
    lemma {:induction false} OneMoreNode(nn: nat, i: nat, n: int)
      requires Valid() && i < |Chain| && n != 0 && n + |Contents| - nn == |Chain[i].before| + |Chain[i].elems| && NoneFrom(nn, i + 2)
      ensures NoneFrom(nn, i + 1)
    {
      if i + 1 < |Chain| { NodeIsPrefix(i + 1); }
    }

    /** At the end the count is zero exactly for the numbers of nodes. */
    lemma {:induction false} CountAtEnd(nn: nat, i: nat, n: int)
      requires Valid() && nn <= |Contents| && i < |Chain|
      requires (n == 0 && n + |Contents| - nn == |Chain[i].before| + |Chain[i].elems|)
               || (i == 0 && 0 < nn && n == nn - |Contents| && NoneFrom(nn, 1))
      ensures n == 0 <==> IsNodeCount(nn)
      ensures n != 0 ==> n == nn - |Contents|
    {
      NodeIsPrefix(i);
      if n == 0 && |Contents| - nn == |Chain[i].before| + |Chain[i].elems| {
        if i + 1 < |Chain| {
          NodeIsPrefix(i + 1);
          assert nn + |Chain[i + 1].before| == |Contents|;
        }
      } else if n == 0 {
        assert nn + |Chain[0].before| == |Contents|;
      }
    }

    /** Copies all elements of a node, from the last one on. */
    method CopyNode(dest: array<T>, nd: StackNode<T>, nn: int, before: seq<int>, ghost all: nat, ghost was: seq<T>) returns (n: int, stray: seq<int>)
      requires nd.Valid(elemsize) && elemsize > 0 && nd.before + nd.elems <= Contents
      requires Copied(dest[..], was, all, nn, before) && nn + |Contents| - all == |nd.before + nd.elems|
      modifies dest
      ensures n == nn - |nd.elems| && Copied(dest[..], was, all, n, stray)
    {
      n, stray := nn, before;
      var arsize := nd.arsize;
      var k := |nd.elems|;
      while arsize >= HEADER + elemsize
        invariant 0 <= k <= |nd.elems| && arsize == HEADER + k * elemsize && n == nn - (|nd.elems| - k)
        invariant Copied(dest[..], was, all, n, stray)
        decreases k
      {
        OneMore(k - 1, elemsize);
        assert nd.elems[k - 1] == Contents[|nd.before| + k - 1];
        if 0 <= n - 1 {
          dest[n - 1] := nd.elems[k - 1];
        } else {
          stray := stray + [n - 1];
        }
        arsize := arsize - elemsize;
        n, k := n - 1, k - 1;
      }
      if k > 0 { Times(k, elemsize); }
    }

    /** A number that ends within the top node. */
    lemma {:induction false} WithinTopNode(nn: nat)
      requires Valid() && top != null && 0 < nn < |top.elems|
      ensures !IsNodeCount(nn)
    {
      var i := |Chain| - 1;
      forall b: nat | b < |Chain| ensures nn + |Chain[b].before| != |Contents| {
        if b < i { BeforeGrows(b, i); }
      }
    }

    lemma {:induction false} BeforeGrows(i: nat, j: nat)
      requires Valid() && i < j < |Chain|
      ensures |Chain[i].before| + |Chain[i].elems| <= |Chain[j].before|
      decreases j - i
    {
      NodeIsPrefix(j);
      if i + 1 < j { BeforeGrows(i, j - 1); }
    }
  }

  /** The places -1, -2 and so on. */
  function BelowZero(n: nat): (r: seq<int>)
    ensures |r| == n && forall i :: 0 <= i < n ==> r[i] == -1 - i
  {
    seq(n, i requires 0 <= i < n => -1 - i)
  }

  /** The uppermost element of two in one node: the other one is written before the result. */
  method UppermostOfTwo<T(0)>(x: T, y: T) returns (ok: bool, stray: seq<int>)
    ensures !ok && stray == [-1]
  {
    var stack := new Stack<T>(8, 4, 0);
    var pushed := stack.Push(x, true);
    assert stack.NodeAt(|stack.Chain| - 1);
    pushed := stack.Push(y, true);
    assert stack.top.elems == [x] + [y];
    var dest := new T[1];
    stack.WithinTopNode(1);
    ok, stray := stack.TopN(dest, 1);
  }
}
