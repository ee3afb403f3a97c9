/**
 * Boot-time memory setup: seeding the frame allocator from the boot
 * loader's memory map, the kernel section and direct-map arithmetic of the
 * kernel page directory, and the allocator front ends `allocate_pages` and
 * `deallocate_pages`.
 *
 * The memory map, the direct-map offset and the linker's section bounds
 * are parameters; the allocator is passed in rather than reached through
 * a global lock.
 */
module Mem {
  import opened Wrappers
  import opened Arch
  import opened Misc
  import opened MemTypes
  import opened FreeListSpec
  import opened PageAllocator
  import RiscvMem

  // ---------------------------------------------------------------------------
  // The memory map
  // ---------------------------------------------------------------------------

  /** The kinds of memory-map entry the boot loader reports. */
  datatype EntryType =
    | Usable | Reserved | AcpiReclaimable | AcpiNvs | BadMemory
    | BootloaderReclaimable | ExecutableAndModules | Framebuffer

  datatype MemoryMapEntry = MemoryMapEntry(base: nat, length: nat, entryType: EntryType)

  /**
   * The usable entries are sorted by strictly ascending base and do not
   * overlap. Entries of other types are never read, so nothing is asked
   * of them.
   */
  ghost predicate SortedDisjoint(entries: seq<MemoryMapEntry>)
  {
    forall i, j ::
      0 <= i < j < |entries| && entries[i].entryType == Usable && entries[j].entryType == Usable ==>
      entries[i].base < entries[j].base && entries[i].base + entries[i].length <= entries[j].base
  }

  /** Whole frames in an entry: `length / PAGE_SIZE`, a trailing partial frame dropped. */
  function SeedPages(e: MemoryMapEntry): (n: nat)
    ensures PAGE_SIZE * n <= e.length < PAGE_SIZE * (n + 1)
  {
    e.length / PAGE_SIZE
  }

  /** Frames the usable entries contribute. */
  function UsablePages(entries: seq<MemoryMapEntry>): (n: nat)
    ensures PAGE_SIZE * n <= UsableLength(entries)
  {
    if entries == [] then 0
    else (if entries[0].entryType == Usable then SeedPages(entries[0]) else 0) + UsablePages(entries[1..])
  }

  /** Bytes of usable memory, the `usable_memory` total. */
  function UsableLength(entries: seq<MemoryMapEntry>): (len: nat)
    ensures forall i :: 0 <= i < |entries| && entries[i].entryType == Usable ==> entries[i].length <= len
  {
    if entries == [] then 0
    else (if entries[0].entryType == Usable then entries[0].length else 0) + UsableLength(entries[1..])
  }

  // ---------------------------------------------------------------------------
  // Seeding the allocator
  // ---------------------------------------------------------------------------

  /**
   * `init_page_allocator` on the regions of a free list: each usable entry,
   * in map order, is freed as `deallocate(base, length / PAGE_SIZE)`.
   */
  function Seeded(rs: seq<Region>, entries: seq<MemoryMapEntry>): (r: seq<Region>)
    requires |rs| >= 1
    decreases |entries|
    ensures |r| >= 1
    ensures Total(r) == Total(rs) + UsablePages(entries)
  {
    if entries == [] then rs
    else
      var e := entries[0];
      var rs' := if e.entryType == Usable then Deallocated(rs, e.base, SeedPages(e)) else rs;
      Seeded(rs', entries[1..])
  }

  /** The free list lies wholly below the start of every usable entry still to come. */
  ghost predicate BelowAll(rs: seq<Region>, entries: seq<MemoryMapEntry>)
  {
    forall j :: 0 <= j < |entries| && entries[j].entryType == Usable ==> KeysBelow(rs, entries[j].base) && EndsBelow(rs, entries[j].base)
  }

  /** Freeing one entry keeps the list below all the entries after it. */
  lemma SeedStep(rs: seq<Region>, entries: seq<MemoryMapEntry>)
    requires |rs| >= 1 && rs[0].base == 0 && entries != []
    requires SortedDisjoint(entries) && BelowAll(rs, entries)
    requires Ascending(rs) && Separated(rs)
    ensures var e := entries[0];
            var rs' := if e.entryType == Usable then Deallocated(rs, e.base, SeedPages(e)) else rs;
            && |rs'| >= 1 && rs'[0].base == 0
            && Ascending(rs') && Separated(rs') && BelowAll(rs', entries[1..])
  {
    var e := entries[0];
    if e.entryType == Usable {
      var n := SeedPages(e);
      var rs' := Deallocated(rs, e.base, n);
      assert KeysBelow(rs, e.base) && EndsBelow(rs, e.base);
      DeallocatedAscending(rs, e.base, n);
      forall i | 0 <= i < |rs|
        ensures Outside(rs[i], e.base, n)
      {
      }
      DeallocatedSeparated(rs, e.base, n);
      var p, q, x := DeallocatedSplice(rs, e.base, n);
      forall j | 0 <= j < |entries[1..]| && entries[1..][j].entryType == Usable
        ensures KeysBelow(rs', entries[1..][j].base) && EndsBelow(rs', entries[1..][j].base)
      {
        var b := entries[1..][j].base;
        assert entries[1..][j] == entries[j + 1];
        assert e.base < b && e.base + e.length <= b;
        DeallocatedKeysBelow(rs, e.base, n, b);
        DeallocatedEndsBelow(rs, e.base, n, b);
      }
    }
  }

  /**
   * Seeding from a sorted, non-overlapping memory map above the current
   * free list keeps node bases strictly ascending and the list fully
   * coalesced, and adds exactly the whole frames of the usable entries.
   */
  lemma {:induction false} SeededWellFormed(rs: seq<Region>, entries: seq<MemoryMapEntry>)
    requires |rs| >= 1 && rs[0].base == 0
    requires SortedDisjoint(entries) && BelowAll(rs, entries)
    requires Ascending(rs) && Separated(rs)
    decreases |entries|
    ensures var r := Seeded(rs, entries);
            && r[0].base == 0 && Ascending(r) && Separated(r)
            && Total(r) == Total(rs) + UsablePages(entries)
  {
    if entries != [] {
      SeedStep(rs, entries);
      var e := entries[0];
      var rs' := if e.entryType == Usable then Deallocated(rs, e.base, SeedPages(e)) else rs;
      SeededWellFormed(rs', entries[1..]);
    }
  }

  /** Seeding an empty allocator from a map with one usable entry gives one region of its whole frames. */
  lemma SeedOneEntry(base: nat, length: nat)
    requires base > 0
    ensures Seeded([Region(0, 0)], [MemoryMapEntry(base, length, Usable)])
            == [Region(0, 0), Region(base, length / PAGE_SIZE)]
  {
    var e := MemoryMapEntry(base, length, Usable);
    var rs := [Region(0, 0)];
    assert InsertAfter(rs, base, 0) == 0;
    var ins := Insert(rs, 1, Region(base, length / PAGE_SIZE));
    assert ins == [Region(0, 0), Region(base, length / PAGE_SIZE)];
    assert !Adjacent(ins[0], ins[1]);
    assert [e][1..] == [];
  }

  /** One iteration of `init_page_allocator`: a usable entry's whole frames are freed. */
  method SeedEntry(allocator: FreeListAllocator, entry: MemoryMapEntry, ghost rest: seq<MemoryMapEntry>)
    requires rest != [] && rest[0] == entry && SortedDisjoint(rest)
    requires allocator.Valid() && Separated(allocator.Regions) && BelowAll(allocator.Regions, rest)
    modifies allocator
    ensures allocator.Valid() && Separated(allocator.Regions) && BelowAll(allocator.Regions, rest[1..])
    ensures allocator.Regions == if entry.entryType == Usable then Deallocated(old(allocator.Regions), entry.base, SeedPages(entry)) else old(allocator.Regions)
    ensures Seeded(allocator.Regions, rest[1..]) == Seeded(old(allocator.Regions), rest)
  {
    SeedStep(allocator.Regions, rest);
    if entry.entryType == Usable {
      var pages := entry.length / PAGE_SIZE;
      assert KeysBelow(allocator.Regions, entry.base);
      allocator.Deallocate(entry.base, pages);
    }
  }

  lemma SortedSuffix(entries: seq<MemoryMapEntry>, i: nat)
    requires SortedDisjoint(entries) && i <= |entries|
    ensures SortedDisjoint(entries[i..])
  {
    forall j, k | 0 <= j < k < |entries[i..]| && entries[i..][j].entryType == Usable && entries[i..][k].entryType == Usable
      ensures entries[i..][j].base < entries[i..][k].base
      ensures entries[i..][j].base + entries[i..][j].length <= entries[i..][k].base
    {
      assert entries[i..][j] == entries[i + j] && entries[i..][k] == entries[i + k];
    }
  }

  /**
   * `init_page_allocator`: every usable entry of the memory map, in map
   * order, is handed to `deallocate` with its whole frames.
   */
  method InitPageAllocator(allocator: FreeListAllocator, memoryMap: seq<MemoryMapEntry>)
    requires allocator.Valid()
    requires SortedDisjoint(memoryMap) && BelowAll(allocator.Regions, memoryMap)
    requires Separated(allocator.Regions)
    modifies allocator
    ensures allocator.Valid() && Separated(allocator.Regions)
    ensures allocator.Regions == Seeded(old(allocator.Regions), memoryMap)
  {
    ghost var goal := Seeded(allocator.Regions, memoryMap);
    var i := 0;
    assert memoryMap[0..] == memoryMap;
    while i < |memoryMap|
      invariant 0 <= i <= |memoryMap|
      invariant allocator.Valid() && Separated(allocator.Regions)
      invariant BelowAll(allocator.Regions, memoryMap[i..])
      invariant Seeded(allocator.Regions, memoryMap[i..]) == goal
    {
      SortedSuffix(memoryMap, i);
      assert memoryMap[i..][1..] == memoryMap[i + 1..];
      SeedEntry(allocator, memoryMap[i], memoryMap[i..]);
      i := i + 1;
    }
    assert memoryMap[i..] == [];
  }

  // ---------------------------------------------------------------------------
  // Kernel page directory arithmetic
  // ---------------------------------------------------------------------------

  /** One request to map `size` bytes at `virt` onto `phys`. */
  datatype MapRequest = MapRequest(virt: nat, phys: nat, size: nat, flags: VirtualMemoryFlags)

  /**
   * The kernel image offset: virtual start of the kernel image, rounded
   * down to a page, minus its physical load address. The source asserts
   * that the virtual start is not below the physical one.
   */
  function KernelImageOffset(kernelBlobBegin: U64, kernelAddress: U64): (r: Option<nat>)
    ensures r.Some? <==> AlignDownPage(kernelBlobBegin) >= kernelAddress
    ensures r.Some? ==>
              && kernelAddress + r.value <= kernelBlobBegin < kernelAddress + r.value + PAGE_SIZE
              && (r.value + kernelAddress) % PAGE_SIZE == 0
  {
    var virt := AlignDownPage(kernelBlobBegin);
    if virt >= kernelAddress then Some(virt - kernelAddress) else None
  }

  /**
   * `map_section`: the section's bounds rounded out to whole pages, mapped
   * at the same virtual address onto `begin - offset`. A subtraction that
   * would underflow in `u64` panics in the source; here it is `None`.
   */
  function MapSection(sectionBegin: U64, sectionEnd: U64, offset: nat, flags: VirtualMemoryFlags): (r: Option<MapRequest>)
    requires sectionEnd + PAGE_SIZE - 1 < 0x1_0000_0000_0000_0000
    ensures r.None? <==> AlignUpPage(sectionEnd) < AlignDownPage(sectionBegin) || AlignDownPage(sectionBegin) < offset
    ensures r.Some? ==>
              && r.value.virt % PAGE_SIZE == 0 && r.value.size % PAGE_SIZE == 0
              && r.value.virt <= sectionBegin < r.value.virt + PAGE_SIZE
              && sectionEnd <= r.value.virt + r.value.size < sectionEnd + PAGE_SIZE
              && r.value.phys + offset == r.value.virt
              && r.value.flags == flags
  {
    var begin := AlignDownPage(sectionBegin);
    var end := AlignUpPage(sectionEnd);
    if end < begin || begin < offset then None
    else
      AlignedDifference(end, begin);
      Some(MapRequest(begin, begin - offset, end - begin, flags))
  }

  lemma AlignedDifference(x: nat, y: nat)
    requires x % PAGE_SIZE == 0 && y % PAGE_SIZE == 0 && y <= x
    ensures (x - y) % PAGE_SIZE == 0
  {
    var d := x / PAGE_SIZE - y / PAGE_SIZE;
    assert x - y == d * PAGE_SIZE;
    MulMod(d, PAGE_SIZE);
  }

  /** The three kernel sections, in the order the source maps them: code, read-only data, data. */
  function KernelSections(
    codeBegin: U64, codeEnd: U64, rodataBegin: U64, rodataEnd: U64, dataBegin: U64, dataEnd: U64, offset: nat)
    : (r: Option<seq<MapRequest>>)
    requires codeEnd + PAGE_SIZE - 1 < 0x1_0000_0000_0000_0000
    requires rodataEnd + PAGE_SIZE - 1 < 0x1_0000_0000_0000_0000
    requires dataEnd + PAGE_SIZE - 1 < 0x1_0000_0000_0000_0000
    ensures r.Some? <==>
              && MapSection(codeBegin, codeEnd, offset, Executable).Some?
              && MapSection(rodataBegin, rodataEnd, offset, NoFlags).Some?
              && MapSection(dataBegin, dataEnd, offset, Writeable).Some?
    ensures r.Some? ==>
              r.value == [MapSection(codeBegin, codeEnd, offset, Executable).value,
                          MapSection(rodataBegin, rodataEnd, offset, NoFlags).value,
                          MapSection(dataBegin, dataEnd, offset, Writeable).value]
    ensures r.Some? ==>
              && r.value[0].flags == Executable
              && r.value[1].flags == NoFlags
              && r.value[2].flags == Writeable
  {
    var code := MapSection(codeBegin, codeEnd, offset, Executable);
    var rodata := MapSection(rodataBegin, rodataEnd, offset, NoFlags);
    var data := MapSection(dataBegin, dataEnd, offset, Writeable);
    if code.None? || rodata.None? || data.None? then None
    else Some([code.value, rodata.value, data.value])
  }

  /**
   * What the sections' flags become in the page-table entries: code is
   * readable and executable, read-only data readable only, data readable
   * and writable; none is user accessible.
   */
  lemma KernelSectionPermissions()
    ensures RiscvMem.TranslateFlags(Executable) == RiscvMem.VALID | RiscvMem.READABLE | RiscvMem.EXECUTABLE
    ensures RiscvMem.TranslateFlags(NoFlags) == RiscvMem.VALID | RiscvMem.READABLE
    ensures RiscvMem.TranslateFlags(Writeable) == RiscvMem.VALID | RiscvMem.READABLE | RiscvMem.WRITABLE
  {
  }

  /** The direct map: every usable entry, in map order, mapped writable at `base + hhdm_offset`. */
  function DirectMap(entries: seq<MemoryMapEntry>, hhdmOffset: nat): (r: seq<MapRequest>)
    ensures |r| <= |entries|
    ensures forall k :: 0 <= k < |r| ==> r[k].virt == r[k].phys + hhdmOffset && r[k].flags == Writeable
  {
    if entries == [] then []
    else
      var e := entries[0];
      (if e.entryType == Usable then [MapRequest(e.base + hhdmOffset, e.base, e.length, Writeable)] else [])
        + DirectMap(entries[1..], hhdmOffset)
  }

  /** Total size of a list of mapping requests. */
  function Size(rs: seq<MapRequest>): nat
  {
    if rs == [] then 0 else rs[0].size + Size(rs[1..])
  }

  lemma {:induction false} SizeConcat(a: seq<MapRequest>, b: seq<MapRequest>)
    ensures Size(a + b) == Size(a) + Size(b)
  {
    if a == [] {
      assert a + b == b;
    } else {
      assert (a + b)[1..] == a[1..] + b;
      SizeConcat(a[1..], b);
    }
  }

  /** The sizes of the direct-map requests add up to the usable total. */
  lemma {:induction false} DirectMapSize(entries: seq<MemoryMapEntry>, hhdmOffset: nat)
    decreases |entries|
    ensures Size(DirectMap(entries, hhdmOffset)) == UsableLength(entries)
  {
    if entries != [] {
      DirectMapSize(entries[1..], hhdmOffset);
      var e := entries[0];
      var head := if e.entryType == Usable then [MapRequest(e.base + hhdmOffset, e.base, e.length, Writeable)] else [];
      SizeConcat(head, DirectMap(entries[1..], hhdmOffset));
      assert Size(head) == (if e.entryType == Usable then e.length else 0) by {
        if e.entryType == Usable {
          assert head[1..] == [];
        }
      }
    }
  }

  /** `q` maps the whole of some usable entry of `entries`. */
  ghost predicate UsableEntryOf(entries: seq<MemoryMapEntry>, q: MapRequest)
  {
    exists j :: 0 <= j < |entries| && entries[j].entryType == Usable
           && entries[j].base == q.phys && entries[j].length == q.size
  }

  /** Every direct-map request is a usable entry of the map, whole. */
  lemma {:induction false} DirectMapFromUsable(entries: seq<MemoryMapEntry>, hhdmOffset: nat)
    decreases |entries|
    ensures forall q :: q in DirectMap(entries, hhdmOffset) ==> UsableEntryOf(entries, q)
  {
    if entries != [] {
      DirectMapFromUsable(entries[1..], hhdmOffset);
      var e := entries[0];
      var head := if e.entryType == Usable then [MapRequest(e.base + hhdmOffset, e.base, e.length, Writeable)] else [];
      var tail := DirectMap(entries[1..], hhdmOffset);
      var r := head + tail;
      assert DirectMap(entries, hhdmOffset) == r;
      forall q | q in r
        ensures UsableEntryOf(entries, q)
      {
        if q in head {
          assert entries[0].base == q.phys;
        } else {
          assert q in tail;
          var j :| 0 <= j < |entries[1..]| && entries[1..][j].entryType == Usable
                   && entries[1..][j].base == q.phys && entries[1..][j].length == q.size;
          assert entries[j + 1] == entries[1..][j];
        }
      }
    }
  }

  /** The request the direct-map loop issues for one usable entry. */
  function DirectRequest(e: MemoryMapEntry, hhdmOffset: nat): MapRequest
  {
    MapRequest(e.base + hhdmOffset, e.base, e.length, Writeable)
  }

  /** The positions, from `i` on, of the usable entries of the map, in increasing order. */
  ghost function UsableIndices(entries: seq<MemoryMapEntry>, i: nat): (ix: seq<nat>)
    decreases |entries| - i
    ensures forall k :: 0 <= k < |ix| ==> i <= ix[k] < |entries| && entries[ix[k]].entryType == Usable
    ensures forall k, l :: 0 <= k < l < |ix| ==> ix[k] < ix[l]
    ensures forall j :: i <= j < |entries| && entries[j].entryType == Usable ==> j in ix
  {
    if i >= |entries| then []
    else (if entries[i].entryType == Usable then [i] else []) + UsableIndices(entries, i + 1)
  }

  /** `r` holds, in order, the requests for the entries at positions `ix`. */
  ghost predicate RequestsFor(r: seq<MapRequest>, entries: seq<MemoryMapEntry>, ix: seq<nat>, hhdmOffset: nat)
  {
    && |r| == |ix|
    && forall k :: 0 <= k < |r| ==> ix[k] < |entries| && r[k] == DirectRequest(entries[ix[k]], hhdmOffset)
  }

  lemma RequestsForCons(r: seq<MapRequest>, entries: seq<MemoryMapEntry>, ix: seq<nat>, hhdmOffset: nat, i: nat)
    requires RequestsFor(r, entries, ix, hhdmOffset) && i < |entries|
    ensures RequestsFor([DirectRequest(entries[i], hhdmOffset)] + r, entries, [i] + ix, hhdmOffset)
  {
    var r' := [DirectRequest(entries[i], hhdmOffset)] + r;
    var ix' := [i] + ix;
    forall k | 1 <= k < |r'|
      ensures ix'[k] < |entries| && r'[k] == DirectRequest(entries[ix'[k]], hhdmOffset)
    {
      assert r'[k] == r[k - 1] && ix'[k] == ix[k - 1];
    }
  }

  /**
   * The direct map is exactly the usable entries in map order: its k-th
   * request maps the k-th usable entry at `base + hhdm_offset`.
   */
  lemma {:induction false} DirectMapInOrder(entries: seq<MemoryMapEntry>, hhdmOffset: nat, i: nat)
    requires i <= |entries|
    decreases |entries| - i
    ensures RequestsFor(DirectMap(entries[i..], hhdmOffset), entries, UsableIndices(entries, i), hhdmOffset)
  {
    if i < |entries| {
      DirectMapInOrder(entries, hhdmOffset, i + 1);
      assert entries[i..][0] == entries[i] && entries[i..][1..] == entries[i + 1..];
      var rest := DirectMap(entries[i + 1..], hhdmOffset);
      if entries[i].entryType == Usable {
        assert DirectMap(entries[i..], hhdmOffset) == [DirectRequest(entries[i], hhdmOffset)] + rest;
        assert UsableIndices(entries, i) == [i] + UsableIndices(entries, i + 1);
        RequestsForCons(rest, entries, UsableIndices(entries, i + 1), hhdmOffset, i);
      } else {
        assert DirectMap(entries[i..], hhdmOffset) == [] + rest == rest;
        assert UsableIndices(entries, i) == [] + UsableIndices(entries, i + 1) == UsableIndices(entries, i + 1);
      }
    } else {
      assert entries[i..] == [];
    }
  }

  /** Every usable entry is mapped, whole and writable, at `base + hhdm_offset`. */
  lemma DirectMapCoversUsable(entries: seq<MemoryMapEntry>, hhdmOffset: nat, j: nat)
    requires j < |entries| && entries[j].entryType == Usable
    ensures DirectRequest(entries[j], hhdmOffset) in DirectMap(entries, hhdmOffset)
  {
    DirectMapInOrder(entries, hhdmOffset, 0);
    assert entries[0..] == entries;
    var ix := UsableIndices(entries, 0);
    var k :| 0 <= k < |ix| && ix[k] == j;
    assert DirectMap(entries, hhdmOffset)[k] == DirectRequest(entries[j], hhdmOffset);
  }

  /** One iteration of the direct-map loop keeps both of its invariants. */
  lemma DirectMapStep(requests: seq<MapRequest>, entries: seq<MemoryMapEntry>, hhdmOffset: nat, i: nat)
    requires i < |entries| && requests + DirectMap(entries[i..], hhdmOffset) == DirectMap(entries, hhdmOffset)
    ensures var e := entries[i];
            && (if e.entryType == Usable then requests + [MapRequest(e.base + hhdmOffset, e.base, e.length, Writeable)] else requests)
               + DirectMap(entries[i + 1..], hhdmOffset) == DirectMap(entries, hhdmOffset)
  {
    var e := entries[i];
    var rest := DirectMap(entries[i + 1..], hhdmOffset);
    assert entries[i..][0] == e && entries[i..][1..] == entries[i + 1..];
    if e.entryType == Usable {
      var head := [MapRequest(e.base + hhdmOffset, e.base, e.length, Writeable)];
      assert DirectMap(entries[i..], hhdmOffset) == head + rest;
      assert requests + head + rest == requests + (head + rest);
    } else {
      assert DirectMap(entries[i..], hhdmOffset) == [] + rest;
      assert [] + rest == rest;
    }
  }

  /** One iteration of the direct-map loop adds the entry's length if it is usable. */
  lemma UsableLengthStep(entries: seq<MemoryMapEntry>, i: nat)
    requires i < |entries|
    ensures UsableLength(entries[i..]) == (if entries[i].entryType == Usable then entries[i].length else 0) + UsableLength(entries[i + 1..])
  {
    assert entries[i..][0] == entries[i] && entries[i..][1..] == entries[i + 1..];
  }

  /**
   * The direct-map loop of `init_kernel_page_directory`: the mapping
   * requests it issues, in order, and the `usable_memory` it adds up.
   */
  method DirectMapLoop(memoryMap: seq<MemoryMapEntry>, hhdmOffset: nat) returns (requests: seq<MapRequest>, usableMemory: nat)
    ensures requests == DirectMap(memoryMap, hhdmOffset)
    ensures usableMemory == UsableLength(memoryMap) == Size(requests)
  {
    requests := [];
    usableMemory := 0;
    var i := 0;
    while i < |memoryMap|
      invariant 0 <= i <= |memoryMap|
      invariant requests + DirectMap(memoryMap[i..], hhdmOffset) == DirectMap(memoryMap, hhdmOffset)
      invariant usableMemory + UsableLength(memoryMap[i..]) == UsableLength(memoryMap)
    {
      var entry := memoryMap[i];
      DirectMapStep(requests, memoryMap, hhdmOffset, i);
      UsableLengthStep(memoryMap, i);
      if entry.entryType == Usable {
        var physicalAddr := entry.base;
        var virtualAddr := physicalAddr + hhdmOffset;
        usableMemory := usableMemory + entry.length;
        requests := requests + [MapRequest(virtualAddr, physicalAddr, entry.length, Writeable)];
      }
      i := i + 1;
    }
    assert memoryMap[i..] == [];
    DirectMapSize(memoryMap, hhdmOffset);
  }

  // ---------------------------------------------------------------------------
  // Allocator front ends
  // ---------------------------------------------------------------------------

  /** Memory seen through the direct map, byte by byte. */
  class Memory {
    var bytes: map<nat, bv8>

    constructor(bytes: map<nat, bv8>)
      ensures this.bytes == bytes
    {
      this.bytes := bytes;
    }
  }

  /** The addresses `[start, start + len)`. */
  function Interval(start: nat, len: nat): (s: set<nat>)
    ensures forall a :: a in s <==> start <= a < start + len
  {
    if len == 0 then {} else Interval(start, len - 1) + {start + len - 1}
  }

  /** `write_bytes(start, 0, len)`: the bytes `[start, start + len)` become zero, all others stay. */
  function Zeroed(bytes: map<nat, bv8>, start: nat, len: nat): (r: map<nat, bv8>)
    ensures forall a :: start <= a < start + len ==> a in r && r[a] == 0
    ensures forall a :: (a < start || a >= start + len) ==> (a in r <==> a in bytes)
    ensures forall a :: a in bytes && (a < start || a >= start + len) ==> r[a] == bytes[a]
  {
    map a | a in bytes.Keys + Interval(start, len) :: if start <= a < start + len then 0 else bytes[a]
  }

  /**
   * `allocate_pages`: an allocator failure is passed on and nothing else
   * happens; otherwise, when `zeroed`, the `PAGE_SIZE * numPages` bytes at
   * the frame's direct-map address are cleared.
   */
  method AllocatePages(allocator: FreeListAllocator, memory: Memory, hhdmOffset: nat, numPages: nat, zeroed: bool)
    returns (r: Result<nat, AllocError>)
    requires allocator.Valid()
    modifies allocator, memory
    ensures allocator.Valid()
    ensures (r, allocator.Regions) == Allocated(old(allocator.Regions), numPages)
    ensures r.Err? || !zeroed ==> memory.bytes == old(memory.bytes)
    ensures r.Ok? && zeroed ==> memory.bytes == Zeroed(old(memory.bytes), r.value + hhdmOffset, PAGE_SIZE * numPages)
  {
    var page := allocator.Allocate(numPages);
    if page.Err? {
      return Err(page.error);
    }
    if zeroed {
      memory.bytes := Zeroed(memory.bytes, page.value + hhdmOffset, PAGE_SIZE * numPages);
    }
    return Ok(page.value);
  }

  /** `deallocate_pages`: hands the frames back to the allocator. */
  method DeallocatePages(allocator: FreeListAllocator, physicalAddr: nat, numPages: nat)
    requires allocator.Valid()
    requires forall i :: 1 <= i < |allocator.Regions| ==> allocator.Regions[i].base != physicalAddr
    modifies allocator
    ensures allocator.Valid()
    ensures allocator.Regions == Deallocated(old(allocator.Regions), physicalAddr, numPages)
  {
    allocator.Deallocate(physicalAddr, numPages);
  }
}
