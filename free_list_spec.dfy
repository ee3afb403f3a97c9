/**
 * The free list of the physical frame allocator, seen as a sequence of
 * regions in list order. Index 0 is the dummy root node (base 0); the
 * nodes after it are the free regions, each `pages` frames long. The
 * functions here say what each allocator operation does to that sequence;
 * the class in module PageAllocator is proved to follow them.
 */
module FreeListSpec {
  import opened Wrappers
  import opened Arch

  datatype Region = Region(base: nat, pages: nat)

  datatype AllocError = AllocError

  /** First address past the region (`FreeListNode::end`). */
  function EndOf(r: Region): nat
  {
    r.base + PAGE_SIZE * r.pages
  }

  /** `FreeListNode::is_adjacent`: the right region starts where the left one ends. */
  predicate Adjacent(left: Region, right: Region)
  {
    EndOf(left) == right.base
  }

  /** Number of free frames recorded in the list, the root's included. */
  function Total(rs: seq<Region>): nat
  {
    if rs == [] then 0 else rs[0].pages + Total(rs[1..])
  }

  lemma {:induction false} TotalConcat(a: seq<Region>, b: seq<Region>)
    ensures Total(a + b) == Total(a) + Total(b)
  {
    if a == [] {
      assert a + b == b;
    } else {
      assert (a + b)[1..] == a[1..] + b;
      TotalConcat(a[1..], b);
    }
  }

  /** Free-list nodes after the root have strictly ascending bases. */
  ghost predicate Ascending(rs: seq<Region>)
  {
    forall i, j :: 1 <= i < j < |rs| ==> rs[i].base < rs[j].base
  }

  /**
   * Fully coalesced: every region ends strictly before the next one
   * starts, so regions are ordered, disjoint and never adjacent.
   */
  ghost predicate Separated(rs: seq<Region>)
  {
    forall i :: 0 <= i < |rs| - 1 ==> EndOf(rs[i]) < rs[i + 1].base
  }

  /** The region `[a, a + PAGE_SIZE * n)` lies wholly above or wholly below `r`. */
  predicate Outside(r: Region, a: nat, n: nat)
  {
    EndOf(r) <= a || (a < r.base && a + PAGE_SIZE * n <= r.base)
  }

  /** Every node after the root has a base below `b`. */
  ghost predicate KeysBelow(rs: seq<Region>, b: nat)
  {
    forall i :: 1 <= i < |rs| ==> rs[i].base < b
  }

  // ---------------------------------------------------------------------------
  // Building blocks
  // ---------------------------------------------------------------------------

  /** `FreeListNode::extend` applied to the regions at `i` and `i + 1`. */
  function Merge(rs: seq<Region>, i: nat): (r: seq<Region>)
    requires i + 1 < |rs|
    ensures |r| == |rs| - 1
    ensures Total(r) == Total(rs)
    ensures r[i].base == rs[i].base
    ensures r[i].pages == rs[i].pages + rs[i + 1].pages
    ensures forall j :: 0 <= j < i ==> r[j] == rs[j]
    ensures forall j :: i < j < |r| ==> r[j] == rs[j + 1]
  {
    var x, y := rs[i], rs[i + 1];
    var m := Region(x.base, x.pages + y.pages);
    var pre, post := rs[..i], rs[i + 2..];
    assert rs == pre + [x, y] + post;
    TotalConcat(pre + [x, y], post);
    TotalConcat(pre, [x, y]);
    TotalConcat(pre + [m], post);
    TotalConcat(pre, [m]);
    assert Total([x, y]) == x.pages + y.pages by {
      assert [x, y][1..] == [y];
      assert [y][1..] == [];
    }
    assert Total([m]) == m.pages by {
      assert [m][1..] == [];
    }
    pre + [m] + post
  }

  /** Places `x` at index `k`, shifting the rest up (`FreeListNode::append` after index `k - 1`). */
  function Insert(rs: seq<Region>, k: nat, x: Region): (r: seq<Region>)
    requires k <= |rs|
    ensures |r| == |rs| + 1 && r[k] == x
    ensures Total(r) == Total(rs) + x.pages
    ensures forall j :: 0 <= j < k ==> r[j] == rs[j]
    ensures forall j :: k < j < |r| ==> r[j] == rs[j - 1]
  {
    assert rs == rs[..k] + rs[k..];
    TotalConcat(rs[..k], rs[k..]);
    TotalConcat(rs[..k] + [x], rs[k..]);
    TotalConcat(rs[..k], [x]);
    rs[..k] + [x] + rs[k..]
  }

  /** Removes index `k` (`FreeListNode::remove`). */
  function Delete(rs: seq<Region>, k: nat): (r: seq<Region>)
    requires k < |rs|
    ensures |r| == |rs| - 1
    ensures Total(r) + rs[k].pages == Total(rs)
    ensures forall j :: 0 <= j < k ==> r[j] == rs[j]
    ensures forall j :: k <= j < |r| ==> r[j] == rs[j + 1]
  {
    assert rs == rs[..k] + [rs[k]] + rs[k + 1..];
    TotalConcat(rs[..k] + [rs[k]], rs[k + 1..]);
    TotalConcat(rs[..k], [rs[k]]);
    TotalConcat(rs[..k], rs[k + 1..]);
    rs[..k] + rs[k + 1..]
  }

  /** The successor half of `coalesce`: merge the region at `i` with the next one if adjacent. */
  function MergeNext(rs: seq<Region>, i: nat): (r: seq<Region>)
    requires i < |rs|
  {
    if i + 1 < |rs| && Adjacent(rs[i], rs[i + 1]) then Merge(rs, i) else rs
  }

  /**
   * `FreeListAllocator::coalesce` on the node at index `j`: merge it into its
   * predecessor if adjacent, then merge the (possibly merged) node with its
   * successor if adjacent. The predecessor may be the root.
   */
  function Coalesced(rs: seq<Region>, j: nat): (r: seq<Region>)
    requires 1 <= j < |rs|
    ensures Total(r) == Total(rs)
  {
    if Adjacent(rs[j - 1], rs[j]) then MergeNext(Merge(rs, j - 1), j - 1) else MergeNext(rs, j)
  }

  // ---------------------------------------------------------------------------
  // The three list operations
  // ---------------------------------------------------------------------------

  /**
   * The index `deallocate`'s cursor stops at, starting from index `i`: it
   * advances while the successor exists and has a base not above `a`.
   */
  function InsertAfter(rs: seq<Region>, a: nat, i: nat): (k: nat)
    requires i < |rs|
    decreases |rs| - i
    ensures i <= k < |rs|
    ensures forall j :: i < j <= k ==> rs[j].base <= a
    ensures k + 1 < |rs| ==> rs[k + 1].base > a
  {
    if i + 1 < |rs| && rs[i + 1].base <= a then InsertAfter(rs, a, i + 1) else i
  }

  /** `FreeListAllocator::deallocate(a, n)`. */
  function Deallocated(rs: seq<Region>, a: nat, n: nat): (r: seq<Region>)
    requires |rs| >= 1
    ensures Total(r) == Total(rs) + n
  {
    var k := InsertAfter(rs, a, 0);
    Coalesced(Insert(rs, k + 1, Region(a, n)), k + 1)
  }

  /** `FreeListAllocator::append_node` with a fresh node for `[a, a + PAGE_SIZE * n)`. */
  function Appended(rs: seq<Region>, a: nat, n: nat): (r: seq<Region>)
    requires |rs| >= 1
    ensures Total(r) == Total(rs) + n
  {
    TotalConcat(rs, [Region(a, n)]);
    assert Total([Region(a, n)]) == n by { assert [Region(a, n)][1..] == []; }
    if |rs| == 1 then rs + [Region(a, n)] else Coalesced(rs + [Region(a, n)], |rs|)
  }

  /**
   * The node `allocate` settles on when its cursor is at index `i`: the loop
   * only runs while the cursor has a successor, so the last node is never a
   * candidate.
   */
  function FirstFit(rs: seq<Region>, n: nat, i: nat): (k: Option<nat>)
    requires i >= 1
    decreases |rs| - i
    ensures k.Some? ==> i <= k.value < |rs| - 1 && rs[k.value].pages >= n
    ensures k.Some? ==> forall j :: i <= j < k.value ==> rs[j].pages < n
    ensures k.None? ==> forall j :: i <= j < |rs| - 1 ==> rs[j].pages < n
  {
    if i + 1 >= |rs| then None
    else if rs[i].pages >= n then Some(i)
    else FirstFit(rs, n, i + 1)
  }

  /**
   * `FreeListAllocator::allocate(n)`: the address handed out and the list
   * afterwards. A larger node is shrunk from the top, an exact fit is
   * unlinked.
   */
  function Allocated(rs: seq<Region>, n: nat): (res: (Result<nat, AllocError>, seq<Region>))
    requires |rs| >= 1
    ensures res.0.Err? ==> res.1 == rs
    ensures res.0.Ok? <==> FirstFit(rs, n, 1).Some?
    ensures res.0.Ok? ==> Total(res.1) + n == Total(rs)
    ensures res.0.Ok? ==> |res.1| >= 1 && res.1[0] == rs[0]
    ensures res.0.Ok? ==>
              var k := FirstFit(rs, n, 1).value;
              && rs[k].base <= res.0.value
              && res.0.value + PAGE_SIZE * n == EndOf(rs[k])
    ensures res.0.Ok? ==>
              var k := FirstFit(rs, n, 1).value;
              && (rs[k].pages > n ==>
                    && |res.1| == |rs| && res.1[k] == Region(rs[k].base, rs[k].pages - n)
                    && forall i :: 0 <= i < |rs| && i != k ==> res.1[i] == rs[i])
              && (rs[k].pages == n ==> res.1 == rs[..k] + rs[k + 1..])
  {
    match FirstFit(rs, n, 1)
    case None => (Err(AllocError), rs)
    case Some(k) =>
      if rs[k].pages > n then
        var shrunk := Region(rs[k].base, rs[k].pages - n);
        TotalReplace(rs, k, shrunk);
        (Ok(rs[k].base + PAGE_SIZE * (rs[k].pages - n)), rs[k := shrunk])
      else
        (Ok(rs[k].base), Delete(rs, k))
  }

  /** Replacing one region changes the total by the difference in page counts. */
  lemma TotalReplace(rs: seq<Region>, k: nat, x: Region)
    requires k < |rs|
    ensures Total(rs[k := x]) + rs[k].pages == Total(rs) + x.pages
  {
    var d := Delete(rs, k);
    assert d == Delete(rs[k := x], k);
  }

  // ---------------------------------------------------------------------------
  // Ordering and coalescing
  // ---------------------------------------------------------------------------

  /** In a separated list every region ends before any later region starts. */
  lemma {:induction false} SeparatedOrdered(rs: seq<Region>, i: nat, j: nat)
    requires Separated(rs) && i < j < |rs|
    ensures EndOf(rs[i]) < rs[j].base
    decreases j - i
  {
    if j > i + 1 {
      SeparatedOrdered(rs, i, j - 1);
    }
  }

  /** Replacing `rs[p..q]` by one region that fits strictly between its neighbours keeps the list separated. */
  lemma SpliceSeparated(rs: seq<Region>, p: nat, q: nat, x: Region)
    requires p <= q <= |rs| && Separated(rs)
    requires p > 0 ==> EndOf(rs[p - 1]) < x.base
    requires q < |rs| ==> EndOf(x) < rs[q].base
    ensures Separated(rs[..p] + [x] + rs[q..])
  {
    var r := rs[..p] + [x] + rs[q..];
    forall i | 0 <= i < |r| - 1
      ensures EndOf(r[i]) < r[i + 1].base
    {
      if i + 1 < p {
        assert r[i] == rs[i] && r[i + 1] == rs[i + 1];
      } else if i + 1 == p {
        assert r[i] == rs[p - 1] && r[i + 1] == x;
      } else if i == p {
        assert r[i + 1] == rs[q];
      } else {
        assert r[i] == rs[i - p - 1 + q] && r[i + 1] == rs[i - p + q];
      }
    }
  }

  /**
   * `coalesce` on a region `x` freshly linked after index `k`, as one
   * splice: `rs[p..q]` (nothing, the predecessor, the successor or both)
   * and `x` become the single region `y`.
   */
  lemma CoalescedSplice(rs: seq<Region>, k: nat, x: Region) returns (p: nat, q: nat, y: Region)
    requires k < |rs|
    ensures p <= q <= |rs| && (p == k || p == k + 1) && (q == k + 1 || q == k + 2)
    ensures Coalesced(Insert(rs, k + 1, x), k + 1) == rs[..p] + [y] + rs[q..]
    ensures p == k <==> Adjacent(rs[k], x)
    ensures p == k ==> y.base == rs[k].base
    ensures p == k + 1 ==> y.base == x.base
    ensures q == k + 2 <==> k + 1 < |rs| && Adjacent(x, rs[k + 1])
    ensures q == k + 2 ==> EndOf(y) == EndOf(rs[k + 1])
    ensures q == k + 1 ==> EndOf(y) == EndOf(x)
    ensures y.pages == (if p == k then rs[k].pages else 0) + x.pages + (if q == k + 2 then rs[k + 1].pages else 0)
  {
    var s := Insert(rs, k + 1, x);
    assert s[k] == rs[k] && s[k + 1] == x;
    var right := k + 1 < |rs| && Adjacent(x, rs[k + 1]);
    if Adjacent(rs[k], x) {
      var merged := Region(rs[k].base, rs[k].pages + x.pages);
      var t := Merge(s, k);
      MergeInsertedLeft(rs, k, x);
      assert Coalesced(s, k + 1) == MergeNext(t, k);
      if k + 1 < |rs| {
        assert t[k + 1] == rs[k + 1];
      }
      if right {
        y := Region(rs[k].base, merged.pages + rs[k + 1].pages);
        MergeSpliced(rs, k, merged);
        p, q := k, k + 2;
      } else {
        p, q, y := k, k + 1, merged;
        assert rs[..p] + [y] + rs[q..] == t;
      }
    } else {
      assert Coalesced(s, k + 1) == MergeNext(s, k + 1);
      if right {
        assert s[k + 2] == rs[k + 1];
        y := Region(x.base, x.pages + rs[k + 1].pages);
        MergeInsertedRight(rs, k, x);
        p, q := k + 1, k + 2;
      } else {
        if k + 1 < |rs| {
          assert s[k + 2] == rs[k + 1];
        }
        p, q, y := k + 1, k + 1, x;
        assert s == rs[..p] + [y] + rs[q..];
      }
    }
  }

  /** Merging a region inserted at `k + 1` into its predecessor. */
  lemma MergeInsertedLeft(rs: seq<Region>, k: nat, x: Region)
    requires k < |rs|
    ensures Merge(Insert(rs, k + 1, x), k) == rs[..k] + [Region(rs[k].base, rs[k].pages + x.pages)] + rs[k + 1..]
  {
    var s := Insert(rs, k + 1, x);
    assert s == rs[..k + 1] + [x] + rs[k + 1..];
    SliceOfSplice(rs[..k + 1], x, rs[k + 1..], k, 0);
    assert rs[..k + 1][..k] == rs[..k];
  }

  /** Merging a region inserted at `k + 1` with its successor. */
  lemma MergeInsertedRight(rs: seq<Region>, k: nat, x: Region)
    requires k + 1 < |rs|
    ensures Merge(Insert(rs, k + 1, x), k + 1) == rs[..k + 1] + [Region(x.base, x.pages + rs[k + 1].pages)] + rs[k + 2..]
  {
    var s := Insert(rs, k + 1, x);
    assert s == rs[..k + 1] + [x] + rs[k + 1..];
    assert s[k + 2] == rs[k + 1];
    SliceOfSplice(rs[..k + 1], x, rs[k + 1..], k + 1, 1);
    assert rs[k + 1..][1..] == rs[k + 2..];
  }

  /** Merging the region `m` spliced in at `k` with the region after it. */
  lemma MergeSpliced(rs: seq<Region>, k: nat, m: Region)
    requires k + 1 < |rs|
    ensures Merge(rs[..k] + [m] + rs[k + 1..], k) == rs[..k] + [Region(m.base, m.pages + rs[k + 1].pages)] + rs[k + 2..]
  {
    var t := rs[..k] + [m] + rs[k + 1..];
    SliceOfSplice(rs[..k], m, rs[k + 1..], k, 1);
    assert rs[k + 1..][1..] == rs[k + 2..];
    assert t[k + 1] == rs[k + 1];
  }

  /** Slices of `a + [y] + b` on either side of `y`. */
  lemma SliceOfSplice<T>(a: seq<T>, y: T, b: seq<T>, i: nat, j: nat)
    requires i <= |a| && j <= |b|
    ensures (a + [y] + b)[..i] == a[..i]
    ensures (a + [y] + b)[|a| + 1 + j..] == b[j..]
  {
  }

  /**
   * What `deallocate` does, as one splice: the regions `rs[p..q]` (none,
   * the predecessor, the successor or both) are replaced by one region
   * `x` covering them and the freed range.
   */
  lemma DeallocatedSplice(rs: seq<Region>, a: nat, n: nat) returns (p: nat, q: nat, x: Region)
    requires |rs| >= 1
    ensures var k := InsertAfter(rs, a, 0);
            && p <= q <= |rs| && (p == k || p == k + 1) && (q == k + 1 || q == k + 2)
            && Deallocated(rs, a, n) == rs[..p] + [x] + rs[q..]
            && (p == k <==> Adjacent(rs[k], Region(a, n)))
            && (p == k ==> x.base == rs[k].base)
            && (p == k + 1 ==> x.base == a)
            && (q == k + 2 <==> k + 1 < |rs| && Adjacent(Region(a, n), rs[k + 1]))
            && (q == k + 2 ==> EndOf(x) == EndOf(rs[k + 1]))
            && (q == k + 1 ==> EndOf(x) == EndOf(Region(a, n)))
  {
    var k := InsertAfter(rs, a, 0);
    p, q, x := CoalescedSplice(rs, k, Region(a, n));
  }

  /**
   * Freeing a region that overlaps no free region keeps the list fully
   * coalesced: no two neighbouring regions are adjacent or overlapping
   * afterwards, so in particular the freed region was merged with every
   * neighbour it touches.
   */
  lemma DeallocatedSeparated(rs: seq<Region>, a: nat, n: nat)
    requires |rs| >= 1 && rs[0].base == 0 && Separated(rs)
    requires forall i :: 0 <= i < |rs| ==> Outside(rs[i], a, n)
    ensures Separated(Deallocated(rs, a, n))
  {
    var k := InsertAfter(rs, a, 0);
    var p, q, x := DeallocatedSplice(rs, a, n);
    assert Outside(rs[k], a, n);
    if k + 1 < |rs| {
      assert Outside(rs[k + 1], a, n);
    }
    SpliceSeparated(rs, p, q, x);
  }

  /** The same splice keeps node bases ascending when `x` fits between its neighbours' bases. */
  lemma SpliceAscending(rs: seq<Region>, p: nat, q: nat, x: Region)
    requires p <= q <= |rs| && Ascending(rs)
    requires p == 0 ==> q >= 1
    requires p >= 2 ==> rs[p - 1].base < x.base
    requires p >= 1 && q < |rs| ==> x.base < rs[q].base
    ensures Ascending(rs[..p] + [x] + rs[q..])
  {
    var r := rs[..p] + [x] + rs[q..];
    forall i, j | 1 <= i < j < |r|
      ensures r[i].base < r[j].base
    {
      if j < p {
        assert r[i] == rs[i] && r[j] == rs[j];
      } else if j == p {
        assert r[i] == rs[i] && r[j] == x;
        if i < p - 1 {
          assert rs[i].base < rs[p - 1].base;
        }
      } else if i > p {
        assert r[i] == rs[i - p - 1 + q] && r[j] == rs[j - p - 1 + q];
      } else if i == p {
        assert r[i] == x && r[j] == rs[j - p - 1 + q];
        if j - p - 1 + q > q {
          assert rs[q].base < rs[j - p - 1 + q].base;
        }
      } else {
        assert r[i] == rs[i] && r[j] == rs[j - p - 1 + q];
      }
    }
  }

  /** The same splice keeps every node base below `b` when `x`'s base is. */
  lemma SpliceKeysBelow(rs: seq<Region>, p: nat, q: nat, x: Region, b: nat)
    requires p <= q <= |rs| && KeysBelow(rs, b)
    requires p == 0 ==> q >= 1
    requires p >= 1 ==> x.base < b
    ensures KeysBelow(rs[..p] + [x] + rs[q..], b)
  {
    var r := rs[..p] + [x] + rs[q..];
    forall i | 1 <= i < |r|
      ensures r[i].base < b
    {
      if i < p {
        assert r[i] == rs[i];
      } else if i > p {
        assert r[i] == rs[i - p - 1 + q];
      }
    }
  }

  /** Every region of the list ends at or below `c`. */
  ghost predicate EndsBelow(rs: seq<Region>, c: nat)
  {
    forall i :: 0 <= i < |rs| ==> EndOf(rs[i]) <= c
  }

  lemma SpliceEndsBelow(rs: seq<Region>, p: nat, q: nat, x: Region, c: nat)
    requires p <= q <= |rs| && EndsBelow(rs, c) && EndOf(x) <= c
    ensures EndsBelow(rs[..p] + [x] + rs[q..], c)
  {
    var r := rs[..p] + [x] + rs[q..];
    forall i | 0 <= i < |r|
      ensures EndOf(r[i]) <= c
    {
      if i < p {
        assert r[i] == rs[i];
      } else if i > p {
        assert r[i] == rs[i - p - 1 + q];
      }
    }
  }

  /**
   * `deallocate` keeps node bases strictly ascending as long as the freed
   * address is not already the base of a node.
   */
  lemma DeallocatedAscending(rs: seq<Region>, a: nat, n: nat)
    requires |rs| >= 1 && Ascending(rs)
    requires forall i :: 1 <= i < |rs| ==> rs[i].base != a
    ensures Ascending(Deallocated(rs, a, n))
  {
    var k := InsertAfter(rs, a, 0);
    var p, q, x := DeallocatedSplice(rs, a, n);
    assert k >= 1 ==> rs[k].base < a;
    InsertedAscending(rs, a, k, p, q, x);
  }

  /** The splice `deallocate` makes after the cursor `k` keeps node bases ascending. */
  lemma InsertedAscending(rs: seq<Region>, a: nat, k: nat, p: nat, q: nat, x: Region)
    requires Ascending(rs) && k < |rs| && p <= q <= |rs|
    requires (p == k || p == k + 1) && (q == k + 1 || q == k + 2)
    requires k >= 1 ==> rs[k].base < a
    requires k + 1 < |rs| ==> a < rs[k + 1].base
    requires p == k ==> x.base == rs[k].base
    requires p == k + 1 ==> x.base == a
    ensures Ascending(rs[..p] + [x] + rs[q..])
  {
    if p >= 2 && p == k {
      assert rs[k - 1].base < rs[k].base;
    }
    if p >= 1 && q < |rs| {
      if q == k + 2 {
        assert rs[k + 1].base < rs[k + 2].base;
      }
      if p == k {
        assert rs[k].base < rs[k + 1].base;
      }
    }
    SpliceAscending(rs, p, q, x);
  }

  /** Freeing below `b` leaves every node base below `b`. */
  lemma DeallocatedKeysBelow(rs: seq<Region>, a: nat, n: nat, b: nat)
    requires |rs| >= 1 && KeysBelow(rs, b) && a < b
    ensures KeysBelow(Deallocated(rs, a, n), b)
  {
    var p, q, x := DeallocatedSplice(rs, a, n);
    SpliceKeysBelow(rs, p, q, x, b);
  }

  /** Freeing a region that ends at or below `c` leaves every region ending at or below `c`. */
  lemma DeallocatedEndsBelow(rs: seq<Region>, a: nat, n: nat, c: nat)
    requires |rs| >= 1 && EndsBelow(rs, c) && EndOf(Region(a, n)) <= c
    ensures EndsBelow(Deallocated(rs, a, n), c)
  {
    var p, q, x := DeallocatedSplice(rs, a, n);
    SpliceEndsBelow(rs, p, q, x, c);
  }

  /** `allocate` only shrinks or unlinks a node, so node bases stay strictly ascending. */
  lemma AllocatedAscending(rs: seq<Region>, n: nat)
    requires |rs| >= 1 && Ascending(rs)
    ensures Ascending(Allocated(rs, n).1)
  {
    var r := Allocated(rs, n).1;
    if Allocated(rs, n).0.Ok? {
      var k := FirstFit(rs, n, 1).value;
      if rs[k].pages == n {
        forall i, j | 1 <= i < j < |r|
          ensures r[i].base < r[j].base
        {
          var i', j' := if i < k then i else i + 1, if j < k then j else j + 1;
          assert r[i] == rs[i'] && r[j] == rs[j'];
        }
      }
    }
  }

  /** `allocate` keeps a fully coalesced list fully coalesced. */
  lemma AllocatedSeparated(rs: seq<Region>, n: nat)
    requires |rs| >= 1 && Separated(rs)
    ensures Separated(Allocated(rs, n).1)
  {
    var r := Allocated(rs, n).1;
    if Allocated(rs, n).0.Ok? {
      var k := FirstFit(rs, n, 1).value;
      if rs[k].pages == n {
        forall i | 0 <= i < |r| - 1
          ensures EndOf(r[i]) < r[i + 1].base
        {
          if i + 1 < k {
            assert r[i] == rs[i] && r[i + 1] == rs[i + 1];
          } else if i + 1 == k {
            assert r[i] == rs[k - 1] && r[i + 1] == rs[k + 1];
            SeparatedOrdered(rs, k - 1, k + 1);
          } else {
            assert r[i] == rs[i + 1] && r[i + 1] == rs[i + 2];
          }
        }
      } else {
        forall i | 0 <= i < |r| - 1
          ensures EndOf(r[i]) < r[i + 1].base
        {
          assert EndOf(r[i]) <= EndOf(rs[i]);
        }
      }
    }
  }

  /**
   * Handing back what `allocate` just returned restores the list exactly,
   * when the list was fully coalesced: a shrunk node grows back by merging,
   * an unlinked node is reinserted at its old place.
   */
  lemma AllocateDeallocateRoundTrip(rs: seq<Region>, n: nat)
    requires |rs| >= 1 && Separated(rs)
    ensures var (res, rest) := Allocated(rs, n);
            res.Ok? ==> Deallocated(rest, res.value, n) == rs
  {
    var (res, rest) := Allocated(rs, n);
    if res.Ok? {
      var k := FirstFit(rs, n, 1).value;
      if rs[k].pages > n {
        ShrunkRoundTrip(rs, k, n, rest, res.value);
      } else {
        UnlinkedRoundTrip(rs, k, n, rest, res.value);
      }
    }
  }

  /** Freeing the top `n` pages carved off region `k` merges them straight back. */
  lemma ShrunkRoundTrip(rs: seq<Region>, k: nat, n: nat, rest: seq<Region>, a: nat)
    requires Separated(rs) && 1 <= k < |rs| - 1 && rs[k].pages > n
    requires rest == rs[k := Region(rs[k].base, rs[k].pages - n)]
    requires a == EndOf(Region(rs[k].base, rs[k].pages - n))
    ensures Deallocated(rest, a, n) == rs
  {
    forall j | 1 <= j <= k
      ensures rest[j].base <= a
    {
      if j < k { SeparatedOrdered(rs, j, k); }
    }
    InsertAfterIs(rest, a, k);
    var p, q, y := CoalescedSplice(rest, k, Region(a, n));
    assert p == k && q == k + 1 && y == rs[k];
    assert rest[..k] == rs[..k] && rest[k + 1..] == rs[k + 1..];
    assert rs[..k] + [rs[k]] + rs[k + 1..] == rs;
  }

  /** Freeing an unlinked region `k` puts it back in its place without merging. */
  lemma UnlinkedRoundTrip(rs: seq<Region>, k: nat, n: nat, rest: seq<Region>, a: nat)
    requires Separated(rs) && 1 <= k < |rs| - 1 && rs[k].pages == n
    requires rest == Delete(rs, k) && a == rs[k].base
    ensures Deallocated(rest, a, n) == rs
  {
    assert InsertAfter(rest, a, 0) == k - 1 by {
      forall j | 1 <= j <= k - 1
        ensures rest[j].base <= a
      {
        SeparatedOrdered(rs, j, k);
      }
      InsertAfterIs(rest, a, k - 1);
    }
    assert rest[k - 1] == rs[k - 1] && rest[k] == rs[k + 1];
    assert !Adjacent(rs[k - 1], rs[k]) && !Adjacent(rs[k], rs[k + 1]) by {
      assert EndOf(rs[k - 1]) < rs[k].base && EndOf(rs[k]) < rs[k + 1].base;
    }
    assert Region(a, n) == rs[k];
    var p, q, y := CoalescedSplice(rest, k - 1, rs[k]);
    assert p == k && q == k && y == rs[k];
    DeleteSplicedBack(rs, k, rest);
  }

  /** Putting a deleted region back where it was restores the list. */
  lemma DeleteSplicedBack(rs: seq<Region>, k: nat, rest: seq<Region>)
    requires k < |rs| && rest == Delete(rs, k)
    ensures rest[..k] + [rs[k]] + rest[k..] == rs
  {
    assert rest[..k] == rs[..k] && rest[k..] == rs[k + 1..];
    assert rs[..k] + [rs[k]] + rs[k + 1..] == rs;
  }

  /** The cursor of `deallocate` stops at `k` when every node up to `k` is at or below `a` and the next is above. */
  lemma InsertAfterIs(rs: seq<Region>, a: nat, k: nat)
    requires k < |rs|
    requires forall j :: 1 <= j <= k ==> rs[j].base <= a
    requires k + 1 < |rs| ==> rs[k + 1].base > a
    ensures InsertAfter(rs, a, 0) == k
  {
    var k' := InsertAfter(rs, a, 0);
  }

  /**
   * `allocate` never examines the last node, so a list holding a single
   * free region can never satisfy a request, however large that region is.
   */
  lemma SingleRegionNeverAllocates(rs: seq<Region>, n: nat)
    requires |rs| == 2
    ensures Allocated(rs, n) == (Err(AllocError), rs)
  {
  }

  /** The root is never handed out: pages merged into it stay there. */
  lemma RootNeverAllocated(rs: seq<Region>, n: nat)
    requires |rs| >= 1
    ensures Allocated(rs, n).1[0] == rs[0]
  {
  }

  /**
   * The dummy root has base 0, so a region freed at physical address 0 next
   * to an empty root is absorbed into the root rather than becoming a node.
   */
  lemma RootAbsorbsAddressZero(rs: seq<Region>, n: nat)
    requires |rs| >= 1 && rs[0] == Region(0, 0)
    requires |rs| > 1 ==> rs[1].base > 0
    ensures var r := Deallocated(rs, 0, n);
            r[0].base == 0 && r[0].pages >= n && |r| <= |rs|
  {
    var p, q, x := DeallocatedSplice(rs, 0, n);
    assert InsertAfter(rs, 0, 0) == 0;
  }

  /** The scenario of one 16-frame region at 0x1000_0000: seeding works, allocating 4 frames fails. */
  lemma SixteenFrameScenario()
    ensures Deallocated([Region(0, 0)], 0x1000_0000, 16) == [Region(0, 0), Region(0x1000_0000, 16)]
    ensures Allocated([Region(0, 0), Region(0x1000_0000, 16)], 4).0 == Err(AllocError)
  {
    var rs := [Region(0, 0)];
    assert InsertAfter(rs, 0x1000_0000, 0) == 0;
    assert Insert(rs, 1, Region(0x1000_0000, 16)) == [Region(0, 0), Region(0x1000_0000, 16)];
  }

  /** `append_node` as a splice, like `DeallocatedSplice` with no successor. */
  lemma AppendedSplice(rs: seq<Region>, a: nat, n: nat) returns (p: nat, x: Region)
    requires |rs| > 1
    ensures var k := |rs| - 1;
            && (p == k || p == k + 1)
            && Appended(rs, a, n) == rs[..p] + [x]
            && (p == k <==> Adjacent(rs[k], Region(a, n)))
            && (p == k ==> x.base == rs[k].base && EndOf(x) == EndOf(Region(a, n)))
            && (p == k + 1 ==> x == Region(a, n))
  {
    var k := |rs| - 1;
    assert rs + [Region(a, n)] == Insert(rs, k + 1, Region(a, n));
    var q;
    p, q, x := CoalescedSplice(rs, k, Region(a, n));
    assert rs[..p] + [x] + rs[q..] == rs[..p] + [x];
  }

  /** The assertion in `append_node` (new base above the tail's) keeps node bases ascending. */
  lemma AppendedAscending(rs: seq<Region>, a: nat, n: nat)
    requires |rs| >= 1 && Ascending(rs)
    requires |rs| > 1 ==> rs[|rs| - 1].base < a
    ensures Ascending(Appended(rs, a, n))
  {
    if |rs| > 1 {
      var p, x := AppendedSplice(rs, a, n);
      if p >= 2 && p == |rs| - 1 {
        assert rs[p - 1].base < rs[p].base;
      }
      SpliceAscending(rs, p, |rs|, x);
    }
  }

  /** Appending a region that starts at or after the tail's end keeps a coalesced list coalesced. */
  lemma AppendedSeparated(rs: seq<Region>, a: nat, n: nat)
    requires |rs| > 1 && Separated(rs)
    requires EndOf(rs[|rs| - 1]) <= a
    ensures Separated(Appended(rs, a, n))
  {
    var p, x := AppendedSplice(rs, a, n);
    SpliceSeparated(rs, p, |rs|, x);
  }

  /**
   * On an empty list `append_node` links the node after the root without
   * coalescing, so a region at address 0 stays adjacent to the empty root,
   * whereas `deallocate` merges it into the root.
   */
  lemma AppendOnEmptyListSkipsRoot(n: nat)
    ensures Appended([Region(0, 0)], 0, n) == [Region(0, 0), Region(0, n)]
    ensures !Separated(Appended([Region(0, 0)], 0, n))
    ensures Deallocated([Region(0, 0)], 0, n) == [Region(0, n)]
  {
    var rs := [Region(0, 0)];
    assert InsertAfter(rs, 0, 0) == 0;
    var s := Insert(rs, 1, Region(0, n));
    assert s == [Region(0, 0), Region(0, n)];
    assert Merge(s, 0) == [Region(0, n)];
    assert EndOf(Region(0, 0)) == 0;
  }
}
