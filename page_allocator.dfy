/**
 * The physical frame allocator: a doubly-linked free list whose nodes live
 * in the free frames themselves, behind a dummy root node held by the
 * allocator. Node memory is modelled as a store keyed by where a node lives
 * (`Root`, or the physical address of its first frame, since the direct map
 * from physical to virtual addresses is one-to-one). The ghost fields
 * `List` (the nodes in list order) and `Regions` (their extents) tie the
 * store to the specification functions of module FreeListSpec.
 */
module PageAllocator {
  import opened Wrappers
  import opened Arch
  import opened FreeListSpec

  /** A node pointer: the allocator's dummy root, or the node written at physical address `addr`. */
  datatype Ptr = Root | At(addr: nat)

  datatype FreeListNode = FreeListNode(next: Option<Ptr>, prev: Option<Ptr>, base: nat, numPages: nat)

  /** The memory holding the nodes. */
  type Nodes = map<Ptr, FreeListNode>

  /** The extent a node records. */
  function RegionOf(node: FreeListNode): Region
  {
    Region(node.base, node.numPages)
  }

  // ---------------------------------------------------------------------------
  // Link surgery on the node store
  // ---------------------------------------------------------------------------

  /**
   * `FreeListNode::append(node, next)`: `next` is linked in right after
   * `node`, and the old successor of `node` now follows `next`.
   */
  function Linked(m: Nodes, node: Ptr, next: Ptr): (r: Nodes)
    requires node in m && next in m
    requires m[node].next.Some? ==> m[node].next.value in m
    ensures r.Keys == m.Keys
  {
    var oldNext := m[node].next;
    var m1 := m[node := m[node].(next := Some(next))];
    var m2 := m1[next := m1[next].(prev := Some(node), next := oldNext)];
    match oldNext
    case None => m2
    case Some(o) => m2[o := m2[o].(prev := Some(next))]
  }

  /**
   * `FreeListNode::remove(node)`: the neighbours of `node` are linked to
   * each other and the node's own links are cleared.
   */
  function Unlinked(m: Nodes, node: Ptr): (r: Nodes)
    requires node in m
    requires m[node].prev.Some? ==> m[node].prev.value in m
    requires m[node].next.Some? ==> m[node].next.value in m
    ensures r.Keys == m.Keys
  {
    var prev, next := m[node].prev, m[node].next;
    var m1 := if prev.Some? then m[prev.value := m[prev.value].(next := next)] else m;
    var m2 := if next.Some? then m1[next.value := m1[next.value].(prev := prev)] else m1;
    m2[node := m2[node].(next := None, prev := None)]
  }

  /** `FreeListNode::extend(left, right)`: unlink `right` and add its pages to `left`. */
  function Extended(m: Nodes, left: Ptr, right: Ptr): (r: Nodes)
    requires left in m && right in m
    requires m[right].prev.Some? ==> m[right].prev.value in m
    requires m[right].next.Some? ==> m[right].next.value in m
    ensures r.Keys == m.Keys
  {
    var u := Unlinked(m, right);
    u[left := u[left].(numPages := u[left].numPages + u[right].numPages)]
  }

  // ---------------------------------------------------------------------------
  // The abstraction: which list of regions a node store holds
  // ---------------------------------------------------------------------------

  /** Index `i` of `L` is a node in `m` recording `rs[i]`, linked to its list neighbours. */
  ghost predicate NodeAt(m: Nodes, L: seq<Ptr>, rs: seq<Region>, i: nat)
    requires i < |L| == |rs|
  {
    && L[i] in m
    && RegionOf(m[L[i]]) == rs[i]
    && (i >= 1 ==> L[i] == At(rs[i].base))
    && m[L[i]].prev == (if i == 0 then None else Some(L[i - 1]))
    && m[L[i]].next == (if i == |L| - 1 then None else Some(L[i + 1]))
  }

  /**
   * Starting from the root, the store holds the distinct nodes `L`, each
   * written at its own base and recording the matching region of `rs`.
   */
  ghost predicate Represents(m: Nodes, L: seq<Ptr>, rs: seq<Region>)
  {
    && |L| == |rs| >= 1
    && L[0] == Root
    && rs[0].base == 0
    && (forall i :: 0 <= i < |L| ==> L[i] in m)
    && (forall i, j :: 0 <= i < j < |L| ==> L[i] != L[j])
    && (forall i :: 0 <= i < |L| ==> NodeAt(m, L, rs, i))
  }

  /** A node can only be written at an address that is no list node's base if it is not in the list. */
  lemma FreeBase(m: Nodes, L: seq<Ptr>, rs: seq<Region>, a: nat)
    requires Represents(m, L, rs)
    requires forall i :: 1 <= i < |rs| ==> rs[i].base != a
    ensures At(a) !in L
  {
    forall i | 0 <= i < |L|
      ensures L[i] != At(a)
    {
      assert NodeAt(m, L, rs, i);
    }
  }

  /** An address above the last node's base is no node's base. */
  lemma BaseAboveLast(rs: seq<Region>, a: nat)
    requires |rs| >= 1 && Ascending(rs)
    requires |rs| > 1 ==> rs[|rs| - 1].base < a
    ensures forall i :: 1 <= i < |rs| ==> rs[i].base != a
  {
    forall i | 1 <= i < |rs|
      ensures rs[i].base != a
    {
      if i < |rs| - 1 {
        assert rs[i].base < rs[|rs| - 1].base;
      }
    }
  }

  /** Writing a node outside the list does not disturb the list. */
  lemma WriteOutside(m: Nodes, L: seq<Ptr>, rs: seq<Region>, p: Ptr, v: FreeListNode)
    requires Represents(m, L, rs) && p !in L
    ensures Represents(m[p := v], L, rs)
  {
    var m' := m[p := v];
    forall i | 0 <= i < |L|
      ensures NodeAt(m', L, rs, i)
    {
      assert NodeAt(m, L, rs, i);
      assert L[i] != p;
      if i >= 1 { assert L[i - 1] != p; }
    }
  }

  /**
   * Linking a fresh node after the node at index `k` inserts its region at
   * index `k + 1` of the abstract list.
   */
  lemma LinkedInserts(m: Nodes, L: seq<Ptr>, rs: seq<Region>, k: nat, x: Ptr)
    requires Represents(m, L, rs) && k < |L|
    requires x in m && x !in L && x == At(m[x].base)
    ensures NodeAt(m, L, rs, k)
    ensures Represents(Linked(m, L[k], x), L[..k + 1] + [x] + L[k + 1..], Insert(rs, k + 1, RegionOf(m[x])))
  {
    assert NodeAt(m, L, rs, k);
    var m' := Linked(m, L[k], x);
    var L' := L[..k + 1] + [x] + L[k + 1..];
    var rs' := Insert(rs, k + 1, RegionOf(m[x]));
    assert forall i :: 0 <= i <= k ==> L'[i] == L[i];
    assert L'[k + 1] == x;
    assert forall i :: k + 1 < i < |L'| ==> L'[i] == L[i - 1];
    forall i, j | 0 <= i < j < |L'|
      ensures L'[i] != L'[j]
    {
      if i <= k && j > k + 1 {
        assert L'[j] == L[j - 1];
      }
    }
    forall i | 0 <= i < |L'|
      ensures NodeAt(m', L', rs', i)
    {
      if i <= k {
        assert NodeAt(m, L, rs, i);
        assert L[i] != x;
        if k + 1 < |L| { assert L[i] != L[k + 1]; }
        if i >= 1 { assert L[i - 1] != x; }
      } else if i == k + 1 {
        if k + 1 < |L| { assert L[k + 1] != x; }
      } else {
        assert NodeAt(m, L, rs, i - 1);
        assert L[i - 1] != x && L[i - 1] != L[k];
        if i - 1 > k + 1 { assert L[i - 2] != x; }
      }
    }
  }

  /** Unlinking the node at index `k` deletes its region from the abstract list. */
  lemma UnlinkedDeletes(m: Nodes, L: seq<Ptr>, rs: seq<Region>, k: nat)
    requires Represents(m, L, rs) && 1 <= k < |L|
    ensures L[k] in m && (m[L[k]].prev.Some? ==> m[L[k]].prev.value in m)
    ensures m[L[k]].next.Some? ==> m[L[k]].next.value in m
    ensures Represents(Unlinked(m, L[k]), L[..k] + L[k + 1..], Delete(rs, k))
    ensures Unlinked(m, L[k])[L[k]] == m[L[k]].(next := None, prev := None)
  {
    assert NodeAt(m, L, rs, k);
    assert NodeAt(m, L, rs, k - 1);
    var m' := Unlinked(m, L[k]);
    var L' := L[..k] + L[k + 1..];
    var rs' := Delete(rs, k);
    assert forall i :: 0 <= i < k ==> L'[i] == L[i];
    assert forall i :: k <= i < |L'| ==> L'[i] == L[i + 1];
    forall i, j | 0 <= i < j < |L'|
      ensures L'[i] != L'[j]
    {
      if i < k && j >= k {
        assert L'[j] == L[j + 1];
      }
    }
    forall i | 0 <= i < |L'|
      ensures NodeAt(m', L', rs', i)
    {
      if i < k {
        assert NodeAt(m, L, rs, i);
        assert L[i] != L[k];
        if k + 1 < |L| { assert L[i] != L[k + 1]; }
      } else {
        assert NodeAt(m, L, rs, i + 1);
        assert L[i + 1] != L[k] && L[i + 1] != L[k - 1];
        if i > k { assert L[i] != L[k]; }
      }
    }
  }

  /** Extending the node at index `i` by its successor merges the two regions. */
  lemma ExtendedMerges(m: Nodes, L: seq<Ptr>, rs: seq<Region>, i: nat)
    requires Represents(m, L, rs) && i + 1 < |L|
    ensures L[i] in m && L[i + 1] in m
    ensures m[L[i + 1]].prev.Some? ==> m[L[i + 1]].prev.value in m
    ensures m[L[i + 1]].next.Some? ==> m[L[i + 1]].next.value in m
    ensures Represents(Extended(m, L[i], L[i + 1]), L[..i + 1] + L[i + 2..], Merge(rs, i))
  {
    UnlinkedDeletes(m, L, rs, i + 1);
    var u := Unlinked(m, L[i + 1]);
    var L' := L[..i + 1] + L[i + 2..];
    assert L[..i + 1] + L[i + 2..] == L[..i + 1] + L[i + 1 + 1..];
    var d := Delete(rs, i + 1);
    assert L'[i] == L[i];
    assert u[L[i + 1]].numPages == rs[i + 1].pages by {
      assert NodeAt(m, L, rs, i + 1);
    }
    var p := rs[i].pages + rs[i + 1].pages;
    assert u[L[i]].numPages + u[L[i + 1]].numPages == p by {
      assert NodeAt(u, L', d, i);
    }
    ShrunkReplaces(u, L', d, i, p);
    assert d[i := Region(d[i].base, p)] == Merge(rs, i);
  }

  /** Lowering the page count of the node at index `k` replaces its region. */
  lemma ShrunkReplaces(m: Nodes, L: seq<Ptr>, rs: seq<Region>, k: nat, p: nat)
    requires Represents(m, L, rs) && k < |L|
    ensures L[k] in m
    ensures Represents(m[L[k] := m[L[k]].(numPages := p)], L, rs[k := Region(rs[k].base, p)])
  {
    assert NodeAt(m, L, rs, k);
    var m' := m[L[k] := m[L[k]].(numPages := p)];
    var rs' := rs[k := Region(rs[k].base, p)];
    forall i | 0 <= i < |L|
      ensures NodeAt(m', L, rs', i)
    {
      assert NodeAt(m, L, rs, i);
      if i != k { assert L[i] != L[k]; }
    }
  }

  // ---------------------------------------------------------------------------
  // The allocator
  // ---------------------------------------------------------------------------

  class FreeListAllocator {
    /** Node memory; the root lives at key `Root`. */
    var nodes: Nodes
    ghost var List: seq<Ptr>
    ghost var Regions: seq<Region>

    /** The store holds the list `List` of regions `Regions`, in strictly ascending base order. */
    ghost predicate Valid()
      reads this
    {
      Represents(nodes, List, Regions) && Ascending(Regions)
    }

    /** `FreeListAllocator::new`: only the dummy root, at base 0 with no pages. */
    constructor ()
      ensures Valid()
      ensures Regions == [Region(0, 0)] && List == [Root]
      ensures nodes == map[Root := FreeListNode(None, None, 0, 0)]
    {
      nodes := map[Root := FreeListNode(None, None, 0, 0)];
      List := [Root];
      Regions := [Region(0, 0)];
      new;
      assert NodeAt(nodes, List, Regions, 0);
    }

    /** `FreeListNode::end`: the first address past the node's region. */
    function End(node: Ptr): (e: nat)
      reads this
      requires node in nodes
      ensures e == EndOf(RegionOf(nodes[node]))
      ensures e >= nodes[node].base
    {
      nodes[node].base + PAGE_SIZE * nodes[node].numPages
    }

    /** `FreeListNode::is_adjacent`: `right` starts where `left` ends. */
    function IsAdjacent(left: Ptr, right: Ptr): (b: bool)
      reads this
      requires left in nodes && right in nodes
      ensures b <==> Adjacent(RegionOf(nodes[left]), RegionOf(nodes[right]))
    {
      End(left) == nodes[right].base
    }

    /** `FreeListAllocator::head`: the first node after the root, if any. */
    function Head(): (h: Option<Ptr>)
      reads this
      requires Represents(nodes, List, Regions)
      ensures h.None? <==> |List| == 1
      ensures h.Some? ==> h.value == List[1]
    {
      assert NodeAt(nodes, List, Regions, 0);
      nodes[Root].next
    }

    /** `FreeListAllocator::tail`: follows `next` links from the head to the last node. */
    method Tail() returns (t: Option<Ptr>)
      requires Represents(nodes, List, Regions)
      ensures t.None? <==> |List| == 1
      ensures t.Some? ==> t.value == List[|List| - 1] && t.value in nodes && nodes[t.value].next.None?
    {
      var head := Head();
      if head.None? {
        return None;
      }
      var current := head.value;
      ghost var i := 1;
      assert NodeAt(nodes, List, Regions, 1);
      while nodes[current].next.Some?
        invariant 1 <= i < |List| && current == List[i]
        invariant NodeAt(nodes, List, Regions, i)
        decreases |List| - i
      {
        current := nodes[current].next.value;
        i := i + 1;
        assert NodeAt(nodes, List, Regions, i);
      }
      return Some(current);
    }

    /** `FreeListNode::from_addr`: writes a fresh unlinked node at the frame `a`. */
    method FromAddr(a: nat, n: nat) returns (p: Ptr)
      modifies this
      ensures p == At(a)
      ensures nodes == old(nodes)[p := FreeListNode(None, None, a, n)]
      ensures List == old(List) && Regions == old(Regions)
    {
      p := At(a);
      nodes := nodes[p := FreeListNode(None, None, a, n)];
    }

    /** `FreeListNode::append`. */
    method Append(node: Ptr, next: Ptr)
      requires node in nodes && next in nodes
      requires nodes[node].next.Some? ==> nodes[node].next.value in nodes
      modifies this
      ensures nodes == Linked(old(nodes), node, next)
      ensures List == old(List) && Regions == old(Regions)
    {
      var oldNext := nodes[node].next;
      nodes := nodes[node := nodes[node].(next := Some(next))];
      ghost var m1 := nodes;
      nodes := nodes[next := nodes[next].(prev := Some(node))];
      nodes := nodes[next := nodes[next].(next := oldNext)];
      assert nodes == m1[next := m1[next].(prev := Some(node), next := oldNext)];
      if oldNext.Some? {
        nodes := nodes[oldNext.value := nodes[oldNext.value].(prev := Some(next))];
      }
    }

    /** `append` of a written node after the list node at index `k`, with the abstraction kept in step. */
    method LinkAfter(current: Ptr, node: Ptr, ghost k: nat)
      requires Represents(nodes, List, Regions) && k < |List| && List[k] == current
      requires node in nodes && node !in List && node == At(nodes[node].base)
      modifies this
      ensures Represents(nodes, List, Regions)
      ensures List == old(List)[..k + 1] + [node] + old(List)[k + 1..]
      ensures Regions == Insert(old(Regions), k + 1, RegionOf(old(nodes)[node]))
    {
      LinkedInserts(nodes, List, Regions, k, node);
      Append(current, node);
      List := List[..k + 1] + [node] + List[k + 1..];
      Regions := Insert(Regions, k + 1, RegionOf(old(nodes)[node]));
    }

    /** `FreeListNode::remove`. */
    method Remove(node: Ptr)
      requires node in nodes
      requires nodes[node].prev.Some? ==> nodes[node].prev.value in nodes
      requires nodes[node].next.Some? ==> nodes[node].next.value in nodes
      modifies this
      ensures nodes == Unlinked(old(nodes), node)
      ensures List == old(List) && Regions == old(Regions)
    {
      var prev := nodes[node].prev;
      var next := nodes[node].next;
      if prev.Some? {
        nodes := nodes[prev.value := nodes[prev.value].(next := next)];
      }
      if next.Some? {
        nodes := nodes[next.value := nodes[next.value].(prev := prev)];
      }
      ghost var m2 := nodes;
      nodes := nodes[node := nodes[node].(next := None)];
      nodes := nodes[node := nodes[node].(prev := None)];
      assert nodes == m2[node := m2[node].(next := None, prev := None)];
    }

    /** `FreeListNode::extend`. */
    method Extend(left: Ptr, right: Ptr)
      requires left in nodes && right in nodes
      requires nodes[right].prev.Some? ==> nodes[right].prev.value in nodes
      requires nodes[right].next.Some? ==> nodes[right].next.value in nodes
      modifies this
      ensures nodes == Extended(old(nodes), left, right)
      ensures List == old(List) && Regions == old(Regions)
    {
      Remove(right);
      nodes := nodes[left := nodes[left].(numPages := nodes[left].numPages + nodes[right].numPages)];
    }

    /**
     * `FreeListNode::shrink`: gives up the top `n` pages of the node and
     * returns their first address. The source asserts the node is larger
     * than `n`.
     */
    method Shrink(node: Ptr, n: nat) returns (addr: nat)
      requires node in nodes && nodes[node].numPages > n
      modifies this
      ensures nodes == old(nodes)[node := old(nodes)[node].(numPages := old(nodes)[node].numPages - n)]
      ensures List == old(List) && Regions == old(Regions)
      ensures addr == End(node) && addr + PAGE_SIZE * n == old(End(node))
    {
      nodes := nodes[node := nodes[node].(numPages := nodes[node].numPages - n)];
      addr := nodes[node].base + PAGE_SIZE * nodes[node].numPages;
    }

    /**
     * `FreeListAllocator::coalesce` on the node at index `j`: merge it into
     * its predecessor if adjacent, then merge the resulting node with the
     * original successor if adjacent.
     */
    method Coalesce(node: Ptr, ghost j: nat)
      requires Represents(nodes, List, Regions) && 1 <= j < |List| && List[j] == node
      modifies this
      ensures Represents(nodes, List, Regions)
      ensures Regions == Coalesced(old(Regions), j)
    {
      var current, c := MergeWithPrevious(node, j);
      MergeWithNext(current, c);
    }

    /**
     * The predecessor half of `coalesce`: the node at index `j` is merged
     * into its predecessor if they are adjacent; `current` is the node that
     * now holds its pages, at index `c`.
     */
    method MergeWithPrevious(node: Ptr, ghost j: nat) returns (current: Ptr, ghost c: nat)
      requires Represents(nodes, List, Regions) && 1 <= j < |List| && List[j] == node
      modifies this
      ensures Represents(nodes, List, Regions)
      ensures c < |List| && current == List[c]
      ensures Adjacent(old(Regions)[j - 1], old(Regions)[j]) ==> Regions == Merge(old(Regions), j - 1) && c == j - 1
      ensures !Adjacent(old(Regions)[j - 1], old(Regions)[j]) ==> Regions == old(Regions) && c == j
    {
      assert NodeAt(nodes, List, Regions, j);
      assert NodeAt(nodes, List, Regions, j - 1);
      ghost var rs := Regions;
      var prev := nodes[node].prev;
      current := node;
      c := j;
      if prev.Some? {
        var adjacent := IsAdjacent(prev.value, node);
        if adjacent {
          MergePair(prev.value, node, j - 1);
          current := prev.value;
          c := j - 1;
        }
        assert adjacent <==> Adjacent(rs[j - 1], rs[j]);
      }
    }

    /** `extend` of the list node at index `i` by its successor, with the abstraction kept in step. */
    method MergePair(left: Ptr, right: Ptr, ghost i: nat)
      requires Represents(nodes, List, Regions) && i + 1 < |List| && List[i] == left && List[i + 1] == right
      modifies this
      ensures Represents(nodes, List, Regions)
      ensures List == old(List)[..i + 1] + old(List)[i + 2..]
      ensures Regions == Merge(old(Regions), i)
    {
      ExtendedMerges(nodes, List, Regions, i);
      Extend(left, right);
      List := List[..i + 1] + List[i + 2..];
      Regions := Merge(Regions, i);
    }

    /**
     * The successor half of `coalesce`. The source reads the successor
     * before the predecessor half runs; a merge into the predecessor hands
     * that same successor to `current`, so it is read here.
     */
    method MergeWithNext(current: Ptr, ghost c: nat)
      requires Represents(nodes, List, Regions) && c < |List| && List[c] == current
      modifies this
      ensures Represents(nodes, List, Regions)
      ensures Regions == MergeNext(old(Regions), c)
    {
      assert NodeAt(nodes, List, Regions, c);
      var next := nodes[current].next;
      if next.Some? {
        assert NodeAt(nodes, List, Regions, c + 1);
        var adjacent := IsAdjacent(current, next.value);
        if adjacent {
          MergePair(current, next.value, c);
        }
      }
    }

    /**
     * `FreeListAllocator::allocate`: first fit from the head, only over
     * nodes that have a successor. A larger node gives up its top pages; an
     * exact fit is unlinked and its base returned.
     */
    method Allocate(n: nat) returns (r: Result<nat, AllocError>)
      requires Valid()
      modifies this
      ensures Valid()
      ensures (r, Regions) == Allocated(old(Regions), n)
    {
      var head := Head();
      if head.None? {
        return Err(AllocError);
      }
      var current := head.value;
      ghost var i := 1;
      while nodes[current].next.Some?
        invariant 1 <= i < |List| && current == List[i]
        invariant NodeAt(nodes, List, Regions, i)
        invariant FirstFit(Regions, n, 1) == FirstFit(Regions, n, i)
        decreases |List| - i
      {
        var next := nodes[current].next.value;
        if nodes[current].numPages > n {
          ShrunkReplaces(nodes, List, Regions, i, nodes[current].numPages - n);
          var addr := Shrink(current, n);
          Regions := Regions[i := Region(Regions[i].base, Regions[i].pages - n)];
          AllocatedAscending(old(Regions), n);
          return Ok(addr);
        }
        if nodes[current].numPages == n {
          UnlinkedDeletes(nodes, List, Regions, i);
          Remove(current);
          List := List[..i] + List[i + 1..];
          Regions := Delete(Regions, i);
          AllocatedAscending(old(Regions), n);
          return Ok(nodes[current].base);
        }
        current := next;
        i := i + 1;
        assert NodeAt(nodes, List, Regions, i);
      }
      return Err(AllocError);
    }

    /**
     * The cursor walk of `deallocate`: from the root, advance while the
     * successor's base is not above `a`.
     */
    method InsertionPoint(a: nat) returns (current: Ptr, ghost k: nat)
      requires Represents(nodes, List, Regions)
      ensures k == InsertAfter(Regions, a, 0) && current == List[k]
    {
      current := Root;
      k := 0;
      assert NodeAt(nodes, List, Regions, 0);
      while nodes[current].next.Some?
        invariant k < |List| && current == List[k]
        invariant NodeAt(nodes, List, Regions, k)
        invariant InsertAfter(Regions, a, 0) == InsertAfter(Regions, a, k)
        decreases |List| - k
      {
        var next := nodes[current].next.value;
        assert NodeAt(nodes, List, Regions, k + 1);
        if nodes[next].base > a {
          break;
        }
        current := next;
        k := k + 1;
      }
    }

    /**
     * `FreeListAllocator::deallocate`: walk from the root to the last node
     * whose base is not above `a`, write a node for `[a, a + PAGE_SIZE * n)`
     * there, link it in after the cursor and coalesce it. A node must not
     * already be written at `a`, or it would be overwritten.
     */
    method Deallocate(a: nat, n: nat)
      requires Valid()
      requires forall i :: 1 <= i < |Regions| ==> Regions[i].base != a
      modifies this
      ensures Valid()
      ensures Regions == Deallocated(old(Regions), a, n)
    {
      var current, k := InsertionPoint(a);
      FreeBase(nodes, List, Regions, a);
      WriteOutside(nodes, List, Regions, At(a), FreeListNode(None, None, a, n));
      var node := FromAddr(a, n);
      LinkAfter(current, node, k);
      Coalesce(node, k + 1);
      DeallocatedAscending(old(Regions), a, n);
    }

    /**
     * `FreeListAllocator::append_node`: link an already written node after
     * the tail and coalesce it, or after the root, without coalescing, when
     * the list is empty. The source asserts the node's base is above the
     * tail's.
     */
    method AppendNode(node: Ptr)
      requires Valid()
      requires node in nodes && node == At(nodes[node].base)
      requires |List| > 1 ==> Regions[|Regions| - 1].base < nodes[node].base
      modifies this
      ensures Valid()
      ensures Regions == Appended(old(Regions), old(nodes)[node].base, old(nodes)[node].numPages)
    {
      ghost var x := RegionOf(nodes[node]);
      BaseAboveLast(Regions, x.base);
      FreeBase(nodes, List, Regions, x.base);
      ghost var last := |List| - 1;
      var tail := Tail();
      match tail {
        case Some(t) =>
          LinkAfter(t, node, last);
          assert old(Regions) + [x] == Regions;
          Coalesce(node, last + 1);
        case None =>
          LinkAfter(Root, node, 0);
      }
      AppendedAscending(old(Regions), x.base, x.pages);
    }
  }
}
