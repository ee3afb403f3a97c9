/**
 * RISC-V page-table entries and the single-page mapper for the Sv39, Sv48
 * and Sv57 translation schemes (section 4.4 to 4.6 of the RISC-V
 * Privileged Architecture, version 1.12).
 *
 * Page-table frames are modelled as a map from a frame's physical page number
 * to its 512 entries; the frames the page allocator would hand out are an
 * abstract supply consumed from the front.
 */
module RiscvMem {
  import opened Wrappers
  import opened MemTypes

  // ---------------------------------------------------------------------------
  // Flags and entries
  // ---------------------------------------------------------------------------

  /** `PageTableFlags`: the eight flag bits in the low byte of an entry. */
  const VALID: bv64 := 1
  const READABLE: bv64 := 2
  const WRITABLE: bv64 := 4
  const EXECUTABLE: bv64 := 8
  const USER: bv64 := 16
  const GLOBAL: bv64 := 32
  const ACCESSED: bv64 := 64
  const DIRTY: bv64 := 128

  /** Mask of the physical page number after shifting an entry right by 10. */
  const PPN_MASK: bv64 := 0x0FFF_FFFF_FFFF

  /** `VPN::MASK`: nine bits of virtual page number per level. */
  const VPN_MASK: bv64 := 0x1FF

  /**
   * `PageTableFlags::new`: every mapping is valid and readable; writable,
   * executable and user bits follow the kernel flags; MMIO is ignored.
   */
  function TranslateFlags(vm: VirtualMemoryFlags): (f: bv64)
    ensures f & (VALID | READABLE) == VALID | READABLE
    ensures f & WRITABLE != 0 <==> Contains(vm, Writeable)
    ensures f & EXECUTABLE != 0 <==> Contains(vm, Executable)
    ensures f & USER != 0 <==> Contains(vm, UserAccessible)
    ensures f & (GLOBAL | ACCESSED | DIRTY) == 0
    ensures f & !0xFF == 0
  {
    (READABLE | VALID)
      | (if Contains(vm, Writeable) then WRITABLE else 0)
      | (if Contains(vm, Executable) then EXECUTABLE else 0)
      | (if Contains(vm, UserAccessible) then USER else 0)
  }

  /** The MMIO bit has no effect on the entry flags. */
  lemma TranslateIgnoresMmio(vm: VirtualMemoryFlags)
    ensures TranslateFlags(vm) == TranslateFlags(vm ^ MMIO)
  {
    assert Contains(vm, Writeable) <==> Contains(vm ^ MMIO, Writeable);
    assert Contains(vm, Executable) <==> Contains(vm ^ MMIO, Executable);
    assert Contains(vm, UserAccessible) <==> Contains(vm ^ MMIO, UserAccessible);
  }

  /** `PageTableEntry::ppn`: bits 10 to 53. */
  function Ppn(e: bv64): (p: bv64)
    ensures p < 1 << 44
  {
    (e >> 10) & PPN_MASK
  }

  /** `PageTableEntry::flags`: `from_bits_truncate` keeps the eight defined bits. */
  function FlagsOf(e: bv64): (f: bv64)
    ensures f <= 0xFF
    ensures (e & !0xFF) | f == e
  {
    e & 0xFF
  }

  /** `PageTableEntry::new`: the page number at bit 10, the flags below it. */
  function NewEntry(ppn: bv64, flags: bv64): (e: bv64)
    ensures ppn < 1 << 44 && flags <= 0xFF ==> Ppn(e) == ppn && FlagsOf(e) == flags
  {
    (ppn << 10) | flags
  }

  /** `PageTableEntry::set_flags`: replaces the low byte and keeps every other bit. */
  function SetFlags(e: bv64, flags: bv64): (r: bv64)
    requires flags <= 0xFF
    ensures FlagsOf(r) == flags
    ensures r & !0xFF == e & !0xFF
  {
    (e & !0xFF) | flags
  }

  /** `set_flags` leaves the page number field as it was. */
  lemma SetFlagsKeepsPpn(e: bv64, flags: bv64)
    requires flags <= 0xFF
    ensures Ppn(SetFlags(e, flags)) == Ppn(e)
  {
  }

  /** `PageTableEntry::has_flag`: every bit of `flag` is set in the entry's flags. */
  function HasFlag(e: bv64, flag: bv64): (b: bool)
    ensures flag <= 0xFF ==> (b <==> e & flag == flag)
    ensures flag & !0xFF != 0 ==> !b
  {
    FlagsOf(e) & flag == flag
  }

  /** `PPN::from_physical_addr`. */
  function FromPhysical(addr: bv64): (p: bv64)
    ensures p < 1 << 52
  {
    addr >> 12
  }

  /** `PPN::as_physical_addr`. */
  function AsPhysical(ppn: bv64): (addr: bv64)
    ensures addr & 0xFFF == 0
  {
    ppn << 12
  }

  /** Converting an address to a page number and back clears its page offset. */
  lemma PhysicalRoundTrip(addr: bv64)
    ensures AsPhysical(FromPhysical(addr)) == addr & !0xFFF
    ensures AsPhysical(FromPhysical(addr)) == addr <==> addr & 0xFFF == 0
  {
  }

  /** The VALID bit of an entry, which `flags().contains(VALID)` tests. */
  function IsValid(e: bv64): (b: bool)
    ensures b <==> HasFlag(e, VALID)
  {
    e & VALID != 0
  }

  // ---------------------------------------------------------------------------
  // Virtual page numbers
  // ---------------------------------------------------------------------------

  /** The paging modes the boot loader can report. */
  datatype Mode = Sv39 | Sv48 | Sv57

  /** `VPN::extract`: the nine-bit index at `shift`. */
  function Extract(va: bv64, shift: nat): (v: nat)
    requires shift < 64
    ensures v < 512
  {
    ((va >> shift) & VPN_MASK) as nat
  }

  datatype Vpn = Vpn(vpn0: nat, vpn1: nat, vpn2: nat, vpn3: Option<nat>, vpn4: Option<nat>)

  /**
   * `VPN::parse`: levels 0 to 2 always, level 3 for Sv48 and Sv57, level 4
   * for Sv57 only.
   */
  function Parse(mode: Mode, va: bv64): (v: Vpn)
    ensures v.vpn0 < 512 && v.vpn1 < 512 && v.vpn2 < 512
    ensures v.vpn3.Some? <==> mode != Sv39
    ensures v.vpn4.Some? <==> mode == Sv57
    ensures v.vpn3.Some? ==> v.vpn3.value < 512
    ensures v.vpn4.Some? ==> v.vpn4.value < 512
  {
    var v := Vpn(Extract(va, 12), Extract(va, 21), Extract(va, 30), None, None);
    match mode
    case Sv39 => v
    case Sv48 => v.(vpn3 := Some(Extract(va, 39)))
    case Sv57 => v.(vpn3 := Some(Extract(va, 39)), vpn4 := Some(Extract(va, 48)))
  }

  /** The indices `map_page` walks through before the leaf level, top level first. */
  function WalkIndices(v: Vpn): (idx: seq<nat>)
    ensures |idx| == 2 + (if v.vpn3.Some? then 1 else 0) + (if v.vpn4.Some? then 1 else 0)
    ensures idx[|idx| - 2..] == [v.vpn2, v.vpn1]
  {
    (if v.vpn4.Some? then [v.vpn4.value] else [])
      + (if v.vpn3.Some? then [v.vpn3.value] else [])
      + [v.vpn2, v.vpn1]
  }

  /** Sv39 walks two intermediate levels, Sv48 three and Sv57 four. */
  lemma LevelsPerMode(mode: Mode, va: bv64)
    ensures var n := |WalkIndices(Parse(mode, va))|;
            n == match mode case Sv39 => 2 case Sv48 => 3 case Sv57 => 4
    ensures forall i :: 0 <= i < |WalkIndices(Parse(mode, va))| ==> WalkIndices(Parse(mode, va))[i] < 512
  {
    var v := Parse(mode, va);
    var idx := WalkIndices(v);
    assert idx == (if v.vpn4.Some? then [v.vpn4.value] else []) + (if v.vpn3.Some? then [v.vpn3.value] else []) + [v.vpn2, v.vpn1];
  }

  // ---------------------------------------------------------------------------
  // Page-table memory and the walk
  // ---------------------------------------------------------------------------

  /** The error of the walker (a unit struct in the source). */
  datatype MapError = MapError

  /**
   * Page-table frames by physical page number. `PPN::as_physical_addr`
   * and the direct map are injective, so the page number identifies the
   * table a `PageTable::from_addr` reaches.
   */
  type Tables = map<nat, seq<bv64>>

  const ENTRIES: nat := 512

  function Zeroes(n: nat): (z: seq<bv64>)
    ensures |z| == n && forall i :: 0 <= i < n ==> z[i] == 0
  {
    if n == 0 then [] else Zeroes(n - 1) + [0]
  }

  /** A frame after `write_bytes(.., 0, PAGE_SIZE)`: 512 zero entries. */
  const ZeroTable: seq<bv64> := Zeroes(ENTRIES)

  /** The page number of the frame at a physical address. */
  function Frame(addr: bv64): nat
  {
    FromPhysical(addr) as nat
  }

  /** The page number a (non-leaf) entry points to. */
  function Target(e: bv64): nat
  {
    Ppn(e) as nat
  }

  /** The entry installed for a freshly allocated table points to that table. */
  lemma InstalledEntryTargets(frame: bv64)
    requires FromPhysical(frame) < 1 << 44
    ensures IsValid(NewEntry(FromPhysical(frame), VALID))
    ensures FlagsOf(NewEntry(FromPhysical(frame), VALID)) == VALID
    ensures Target(NewEntry(FromPhysical(frame), VALID)) == Frame(frame)
  {
    var p := FromPhysical(frame);
    assert Ppn(NewEntry(p, VALID)) == p;
    assert NewEntry(p, VALID) & VALID == VALID;
  }

  /** The frames of a sequence of physical addresses. */
  function FramesOf(s: seq<bv64>): set<nat>
  {
    set f | f in s :: Frame(f)
  }

  /**
   * Every table has 512 entries, and the frames still to be handed out are
   * page-aligned, distinct, addressable by an entry's 44-bit page number
   * and not yet used as tables.
   */
  ghost predicate WellFormed(t: Tables, supply: seq<bv64>)
  {
    && (forall a :: a in t ==> |t[a]| == ENTRIES)
    && (forall i :: 0 <= i < |supply| ==> Frame(supply[i]) !in t && FromPhysical(supply[i]) < 1 << 44)
    && (forall i :: 0 <= i < |supply| ==> supply[i] & 0xFFF == 0)
    && (forall i, j :: 0 <= i < j < |supply| ==> Frame(supply[i]) != Frame(supply[j]))
  }

  /**
   * Following `indices` from `table`, every table reached through a valid
   * entry is present: the source treats whatever a valid entry points to
   * as the next table.
   */
  ghost predicate Walkable(t: Tables, table: nat, indices: seq<nat>)
    decreases |indices|
  {
    && table in t
    && |t[table]| == ENTRIES
    && (forall i :: 0 <= i < |indices| ==> indices[i] < ENTRIES)
    && (indices != [] && IsValid(t[table][indices[0]]) ==> Walkable(t, Target(t[table][indices[0]]), indices[1..]))
  }

  /** The table a walk without allocation reaches, if every entry on the way is valid. */
  function Lookup(t: Tables, table: nat, indices: seq<nat>): (r: Option<nat>)
    decreases |indices|
    ensures r.Some? ==> r.value in t
    ensures r.Some? && indices != [] ==> table in t && indices[0] < |t[table]| && IsValid(t[table][indices[0]])
  {
    if table !in t then None
    else if indices == [] then Some(table)
    else if indices[0] >= |t[table]| || !IsValid(t[table][indices[0]]) then None
    else Lookup(t, Target(t[table][indices[0]]), indices[1..])
  }

  /** `t'` keeps every table of `t` and every valid entry in them. */
  ghost predicate Extends(t: Tables, t': Tables)
  {
    && (forall a :: a in t ==> a in t' && |t'[a]| == |t[a]|)
    && (forall a, i :: a in t && 0 <= i < |t[a]| && IsValid(t[a][i]) ==> t'[a][i] == t[a][i])
  }

  /** The outcome of a walk step: the table reached, and memory and supply afterwards. */
  datatype Walked = Walked(result: Result<nat, MapError>, tables: Tables, supply: seq<bv64>)

  /** The frames taken from the front of `supply` are exactly the new tables. */
  ghost predicate TakesFrom(t: Tables, supply: seq<bv64>, w: Walked)
  {
    && |w.supply| <= |supply|
    && w.supply == supply[|supply| - |w.supply|..]
    && w.tables.Keys == t.Keys + FramesOf(supply[..|supply| - |w.supply|])
  }

  /**
   * `get_next_level`: a valid entry is followed as it is; an invalid one is
   * an error unless `allocate`, in which case a fresh frame is zeroed and
   * installed with only the VALID flag. An allocation failure is an error
   * and changes nothing. On success the entry is valid and the result is
   * the table it points to.
   */
  function NextLevel(t: Tables, supply: seq<bv64>, table: nat, vpn: nat, allocate: bool): (w: Walked)
    requires table in t && |t[table]| == ENTRIES && vpn < ENTRIES
    ensures w.result.Err? <==> !IsValid(t[table][vpn]) && (!allocate || supply == [])
    ensures w.result.Err? || IsValid(t[table][vpn]) ==> w.tables == t && w.supply == supply
    ensures w.result.Ok? ==>
              && table in w.tables && vpn < |w.tables[table]|
              && IsValid(w.tables[table][vpn]) && w.result.value == Target(w.tables[table][vpn])
  {
    var e := t[table][vpn];
    if !IsValid(e) && !allocate then Walked(Err(MapError), t, supply)
    else if !IsValid(e) then
      if supply == [] then Walked(Err(MapError), t, supply)
      else
        var frame := supply[0];
        var entry := NewEntry(FromPhysical(frame), VALID);
        var t1 := t[Frame(frame) := ZeroTable];
        var t' := t1[table := t1[table][vpn := entry]];
        assert IsValid(entry) by { NewEntryValid(FromPhysical(frame)); }
        Walked(Ok(Target(entry)), t', supply[1..])
    else
      Walked(Ok(Target(e)), t, supply)
  }

  lemma NewEntryValid(ppn: bv64)
    ensures IsValid(NewEntry(ppn, VALID))
  {
  }

  /** An allocating step installs the first frame of the supply as a zeroed table. */
  lemma NextLevelInstalls(t: Tables, supply: seq<bv64>, table: nat, vpn: nat)
    requires WellFormed(t, supply) && table in t && vpn < ENTRIES
    requires !IsValid(t[table][vpn]) && supply != []
    ensures var w := NextLevel(t, supply, table, vpn, true);
            && w.result == Ok(Frame(supply[0]))
            && w.supply == supply[1..]
            && w.tables == t[Frame(supply[0]) := ZeroTable][table := t[table][vpn := NewEntry(FromPhysical(supply[0]), VALID)]]
  {
    InstalledEntryTargets(supply[0]);
    assert Frame(supply[0]) != table;
  }

  /** A zeroed table is walkable along any indices: all its entries are invalid. */
  lemma ZeroTableWalkable(t: Tables, table: nat, indices: seq<nat>)
    requires table in t && t[table] == ZeroTable
    requires forall i :: 0 <= i < |indices| ==> indices[i] < ENTRIES
    ensures Walkable(t, table, indices)
  {
    if indices != [] {
      assert !IsValid(t[table][indices[0]]);
    }
  }

  /**
   * An allocating step keeps the memory well formed, keeps every table and
   * valid entry, takes frames only from the front of the supply, and
   * leaves a table that can be walked along the remaining indices.
   */
  lemma NextLevelPreserves(t: Tables, supply: seq<bv64>, table: nat, indices: seq<nat>)
    requires WellFormed(t, supply) && Walkable(t, table, indices) && indices != []
    ensures var w := NextLevel(t, supply, table, indices[0], true);
            && WellFormed(w.tables, w.supply) && Extends(t, w.tables) && TakesFrom(t, supply, w)
            && (w.result.Ok? ==> Walkable(w.tables, w.result.value, indices[1..]))
  {
    var vpn := indices[0];
    var w := NextLevel(t, supply, table, vpn, true);
    if !IsValid(t[table][vpn]) && supply != [] {
      NextLevelInstalls(t, supply, table, vpn);
      InstallWellFormed(t, supply, table, vpn, w.tables);
      InstallExtends(t, supply, table, vpn, w.tables);
      InstallTakes(t, supply, table, vpn, w.tables);
      assert forall i :: 0 <= i < |indices| ==> indices[i] < ENTRIES;
      ZeroTableWalkable(w.tables, Frame(supply[0]), indices[1..]);
    } else {
      assert supply[..0] == [];
    }
  }

  /** Installing the first frame of the supply keeps memory well formed. */
  lemma InstallWellFormed(t: Tables, supply: seq<bv64>, table: nat, vpn: nat, t': Tables)
    requires WellFormed(t, supply) && table in t && vpn < ENTRIES && supply != []
    requires !IsValid(t[table][vpn])
    requires t' == t[Frame(supply[0]) := ZeroTable][table := t[table][vpn := NewEntry(FromPhysical(supply[0]), VALID)]]
    ensures WellFormed(t', supply[1..])
    ensures Frame(supply[0]) in t' && t'[Frame(supply[0])] == ZeroTable
  {
    var frame := Frame(supply[0]);
    assert frame !in t && frame != table;
    assert |ZeroTable| == ENTRIES;
    forall i | 0 <= i < |supply[1..]|
      ensures Frame(supply[1..][i]) !in t'
    {
      assert supply[1..][i] == supply[i + 1];
      assert Frame(supply[i + 1]) != frame;
    }
  }

  /** Installing a frame overwrites only the invalid entry it fills. */
  lemma InstallExtends(t: Tables, supply: seq<bv64>, table: nat, vpn: nat, t': Tables)
    requires WellFormed(t, supply) && table in t && vpn < ENTRIES && supply != []
    requires !IsValid(t[table][vpn])
    requires t' == t[Frame(supply[0]) := ZeroTable][table := t[table][vpn := NewEntry(FromPhysical(supply[0]), VALID)]]
    ensures Extends(t, t')
  {
    var frame := Frame(supply[0]);
    assert frame !in t;
    forall a, i | a in t && 0 <= i < |t[a]| && IsValid(t[a][i])
      ensures t'[a][i] == t[a][i]
    {
      assert a != frame;
      if a == table {
        assert i != vpn;
      }
    }
  }

  /** Installing a frame takes just the first frame of the supply. */
  lemma InstallTakes(t: Tables, supply: seq<bv64>, table: nat, vpn: nat, t': Tables)
    requires WellFormed(t, supply) && table in t && vpn < ENTRIES && supply != []
    requires !IsValid(t[table][vpn])
    requires t' == t[Frame(supply[0]) := ZeroTable][table := t[table][vpn := NewEntry(FromPhysical(supply[0]), VALID)]]
    ensures TakesFrom(t, supply, Walked(Ok(Frame(supply[0])), t', supply[1..]))
  {
    var frame := Frame(supply[0]);
    assert frame !in t && frame != table;
    assert t'.Keys == t.Keys + {frame};
    assert FramesOf(supply[..1]) == {frame} by {
      assert supply[..1] == [supply[0]];
    }
  }


  /**
   * The intermediate levels of `map_page`: `get_next_level` with
   * allocation, once per index, stopping at the first error. Tables
   * installed before an error stay installed.
   */
  function Walk(t: Tables, supply: seq<bv64>, table: nat, indices: seq<nat>): (w: Walked)
    requires WellFormed(t, supply) && Walkable(t, table, indices)
    decreases |indices|
    ensures WellFormed(w.tables, w.supply)
    ensures w.result.Ok? ==> w.result.value in w.tables
  {
    if indices == [] then Walked(Ok(table), t, supply)
    else
      NextLevelPreserves(t, supply, table, indices);
      var step := NextLevel(t, supply, table, indices[0], true);
      if step.result.Err? then step
      else Walk(step.tables, step.supply, step.result.value, indices[1..])
  }

  /**
   * A walk keeps every table and every valid entry, takes frames only from
   * the front of the supply, one per level at most, and the new tables are
   * exactly the frames it took.
   */
  lemma {:induction false} WalkPreserves(t: Tables, supply: seq<bv64>, table: nat, indices: seq<nat>)
    requires WellFormed(t, supply) && Walkable(t, table, indices)
    decreases |indices|
    ensures var w := Walk(t, supply, table, indices);
            && Extends(t, w.tables) && TakesFrom(t, supply, w)
            && |supply| - |w.supply| <= |indices|
  {
    if indices == [] {
      assert supply[..0] == [];
    } else {
      NextLevelPreserves(t, supply, table, indices);
      var step := NextLevel(t, supply, table, indices[0], true);
      if step.result.Ok? {
        WalkPreserves(step.tables, step.supply, step.result.value, indices[1..]);
        var w := Walk(step.tables, step.supply, step.result.value, indices[1..]);
        ExtendsTrans(t, step.tables, w.tables);
        TakesFromTrans(t, supply, step, w);
      }
    }
  }

  lemma ExtendsTrans(t1: Tables, t2: Tables, t3: Tables)
    requires Extends(t1, t2) && Extends(t2, t3)
    ensures Extends(t1, t3)
  {
    forall a, i | a in t1 && 0 <= i < |t1[a]| && IsValid(t1[a][i])
      ensures t3[a][i] == t1[a][i]
    {
      assert t2[a][i] == t1[a][i];
    }
  }

  lemma FramesOfConcat(a: seq<bv64>, b: seq<bv64>)
    ensures FramesOf(a + b) == FramesOf(a) + FramesOf(b)
  {
    forall x | x in FramesOf(a + b)
      ensures x in FramesOf(a) + FramesOf(b)
    {
      var f :| f in a + b && Frame(f) == x;
      if f in a {
        assert x in FramesOf(a);
      } else {
        assert x in FramesOf(b);
      }
    }
    forall x | x in FramesOf(a) + FramesOf(b)
      ensures x in FramesOf(a + b)
    {
      if x in FramesOf(a) {
        var f :| f in a && Frame(f) == x;
        assert f in a + b;
      } else {
        var f :| f in b && Frame(f) == x;
        assert f in a + b;
      }
    }
  }

  lemma TakesFromTrans(t: Tables, supply: seq<bv64>, step: Walked, w: Walked)
    requires TakesFrom(t, supply, step)
    requires TakesFrom(step.tables, step.supply, w)
    ensures TakesFrom(t, supply, w)
  {
    var n1 := |supply| - |step.supply|;
    var n2 := |step.supply| - |w.supply|;
    SlicesCompose(supply, n1, n2);
    FramesOfConcat(supply[..n1], step.supply[..n2]);
  }

  /** Dropping `n1` then `n2` elements drops `n1 + n2`, and what was taken adds up. */
  lemma SlicesCompose<T>(s: seq<T>, n1: nat, n2: nat)
    requires n1 + n2 <= |s|
    ensures s[n1..][n2..] == s[n1 + n2..]
    ensures s[..n1 + n2] == s[..n1] + s[n1..][..n2]
  {
    assert s[n1..][..n2] == s[n1..n1 + n2];
  }

  /** A successful walk leaves a path of valid entries: walking again without allocation finds the same table. */
  lemma {:induction false} WalkFindsTable(t: Tables, supply: seq<bv64>, table: nat, indices: seq<nat>)
    requires WellFormed(t, supply) && Walkable(t, table, indices)
    ensures var w := Walk(t, supply, table, indices);
            w.result.Ok? ==> Lookup(w.tables, table, indices) == Some(w.result.value)
    decreases |indices|
  {
    if indices != [] {
      NextLevelPreserves(t, supply, table, indices);
      var step := NextLevel(t, supply, table, indices[0], true);
      if step.result.Ok? {
        var w := Walk(step.tables, step.supply, step.result.value, indices[1..]);
        WalkFindsTable(step.tables, step.supply, step.result.value, indices[1..]);
        WalkPreserves(step.tables, step.supply, step.result.value, indices[1..]);
        var e := step.tables[table][indices[0]];
        assert w.tables[table][indices[0]] == e;
      }
    }
  }

  /** Where every entry on the path is already valid, the walk allocates nothing and changes nothing. */
  lemma {:induction false} WalkIdleOnMappedPath(t: Tables, supply: seq<bv64>, table: nat, indices: seq<nat>)
    requires WellFormed(t, supply) && Walkable(t, table, indices)
    requires Lookup(t, table, indices).Some?
    ensures Walk(t, supply, table, indices) == Walked(Ok(Lookup(t, table, indices).value), t, supply)
    decreases |indices|
  {
    if indices != [] {
      NextLevelPreserves(t, supply, table, indices);
      WalkIdleOnMappedPath(t, supply, Target(t[table][indices[0]]), indices[1..]);
    }
  }

  /** The entry `map_page` writes for `pa` with the given flags. */
  function LeafEntry(pa: bv64, flags: VirtualMemoryFlags): (e: bv64)
    ensures Ppn(e) == FromPhysical(pa) || FromPhysical(pa) >= 1 << 44
    ensures FlagsOf(e) == TranslateFlags(flags)
  {
    NewEntry(FromPhysical(pa), TranslateFlags(flags))
  }

  /**
   * `map_page` for one 4 KiB page: walk the intermediate levels with
   * allocation from the root table, then overwrite entry `vpn0` of the
   * last table with the page's number and the translated flags.
   */
  function MapPageSpec(t: Tables, supply: seq<bv64>, root: nat, mode: Mode, va: bv64, pa: bv64, flags: VirtualMemoryFlags)
    : (r: (Result<(), MapError>, Tables, seq<bv64>))
    requires WellFormed(t, supply) && Walkable(t, root, WalkIndices(Parse(mode, va)))
    ensures WellFormed(r.1, r.2)
  {
    var v := Parse(mode, va);
    var w := Walk(t, supply, root, WalkIndices(v));
    match w.result
    case Err(e) => (Err(e), w.tables, w.supply)
    case Ok(leaf) => (Ok(()), w.tables[leaf := w.tables[leaf][v.vpn0 := LeafEntry(pa, flags)]], w.supply)
  }

  /** The lookup from `table` along `indices` passes through `a` before its last table. */
  predicate PassesThrough(t: Tables, table: nat, indices: seq<nat>, a: nat)
    decreases |indices|
  {
    && table in t
    && indices != []
    && indices[0] < |t[table]|
    && IsValid(t[table][indices[0]])
    && (table == a || PassesThrough(t, Target(t[table][indices[0]]), indices[1..], a))
  }

  /**
   * Writing an entry of the table a lookup ends at does not change the
   * lookup, unless the path already went through that table earlier.
   */
  lemma {:induction false} LookupAfterLeafWrite(t: Tables, table: nat, indices: seq<nat>, leaf: nat, k: nat, e: bv64)
    requires Lookup(t, table, indices) == Some(leaf) && leaf in t && k < |t[leaf]|
    requires !PassesThrough(t, table, indices, leaf)
    ensures Lookup(t[leaf := t[leaf][k := e]], table, indices) == Some(leaf)
    decreases |indices|
  {
    if indices != [] {
      var t' := t[leaf := t[leaf][k := e]];
      assert table != leaf;
      assert t'[table] == t[table];
      LookupAfterLeafWrite(t, Target(t[table][indices[0]]), indices[1..], leaf, k, e);
    }
  }

  /**
   * Overwriting entry `k` of the table a lookup reaches changes that entry
   * alone and, unless the path went through that table before, leaves the
   * lookup as it was.
   */
  lemma LeafWrite(t: Tables, root: nat, indices: seq<nat>, leaf: nat, k: nat, e: bv64)
    requires Lookup(t, root, indices) == Some(leaf) && leaf in t && k < |t[leaf]|
    ensures var t' := t[leaf := t[leaf][k := e]];
            && t'.Keys == t.Keys && t'[leaf][k] == e
            && (forall a, i :: a in t' && 0 <= i < |t'[a]| && (a != leaf || i != k) ==> t'[a][i] == t[a][i])
            && (!PassesThrough(t, root, indices, leaf) ==> Lookup(t', root, indices) == Some(leaf))
  {
    if !PassesThrough(t, root, indices, leaf) {
      LookupAfterLeafWrite(t, root, indices, leaf, k, e);
    }
  }

  /**
   * After `map_page`: the supply is what the walk left; on failure the
   * walk's tables stay as they were left (tables installed before the
   * failure remain); on success the leaf entry holds the page number of
   * `pa` and the translated flags, no other entry differs from the walk's
   * tables, and walking `va` again reaches the same leaf table.
   */
  lemma MapPageEffect(t: Tables, supply: seq<bv64>, root: nat, mode: Mode, va: bv64, pa: bv64, flags: VirtualMemoryFlags)
    requires WellFormed(t, supply) && Walkable(t, root, WalkIndices(Parse(mode, va)))
    requires FromPhysical(pa) < 1 << 44
    ensures var v := Parse(mode, va);
            var w := Walk(t, supply, root, WalkIndices(v));
            var r := MapPageSpec(t, supply, root, mode, va, pa, flags);
            && r.2 == w.supply
            && (r.0.Ok? <==> w.result.Ok?)
            && (r.0.Err? ==> r.1 == w.tables)
            && (r.0.Ok? ==>
                  var leaf := w.result.value;
                  && leaf in r.1 && r.1.Keys == w.tables.Keys
                  && Ppn(r.1[leaf][v.vpn0]) == FromPhysical(pa)
                  && FlagsOf(r.1[leaf][v.vpn0]) == TranslateFlags(flags)
                  && (forall a, i :: a in r.1 && 0 <= i < |r.1[a]| && (a != leaf || i != v.vpn0) ==> r.1[a][i] == w.tables[a][i])
                  && (!PassesThrough(w.tables, root, WalkIndices(v), leaf) ==> Lookup(r.1, root, WalkIndices(v)) == Some(leaf)))
  {
    var v := Parse(mode, va);
    var idx := WalkIndices(v);
    var w := Walk(t, supply, root, idx);
    WalkFindsTable(t, supply, root, idx);
    if w.result.Ok? {
      LeafWrite(w.tables, root, idx, w.result.value, v.vpn0, LeafEntry(pa, flags));
    }
  }
  /**
   * One step of a walk: the step `get_next_level` takes, then the rest of
   * the walk from the table it returns.
   */
  lemma WalkUnfold(t: Tables, supply: seq<bv64>, table: nat, indices: seq<nat>)
    requires WellFormed(t, supply) && Walkable(t, table, indices) && indices != []
    ensures var step := NextLevel(t, supply, table, indices[0], true);
            && WellFormed(step.tables, step.supply)
            && (step.result.Ok? ==> Walkable(step.tables, step.result.value, indices[1..]))
            && Walk(t, supply, table, indices)
               == if step.result.Err? then step else Walk(step.tables, step.supply, step.result.value, indices[1..])
  {
    NextLevelPreserves(t, supply, table, indices);
  }

  /** `MapPageSpec` in terms of the walk it starts with. */
  lemma MapPageSpecOfWalk(t: Tables, supply: seq<bv64>, root: nat, mode: Mode, va: bv64, pa: bv64, flags: VirtualMemoryFlags)
    requires WellFormed(t, supply) && Walkable(t, root, WalkIndices(Parse(mode, va)))
    ensures var w := Walk(t, supply, root, WalkIndices(Parse(mode, va)));
            && (w.result.Err? ==> MapPageSpec(t, supply, root, mode, va, pa, flags) == (Err(w.result.error), w.tables, w.supply))
            && (w.result.Ok? ==>
                  var leaf := w.result.value;
                  MapPageSpec(t, supply, root, mode, va, pa, flags)
                  == (Ok(()), w.tables[leaf := w.tables[leaf][Parse(mode, va).vpn0 := NewEntry(FromPhysical(pa), TranslateFlags(flags))]], w.supply))
  {
  }

  // ---------------------------------------------------------------------------
  // Levels: why consecutive `map_page` calls on one root stay walkable
  // ---------------------------------------------------------------------------

  /** The number of intermediate levels `map_page` walks in each mode. */
  function Depth(mode: Mode): (n: nat)
    ensures forall va :: |WalkIndices(Parse(mode, va))| == n
  {
    assert forall va :: |WalkIndices(Parse(mode, va))| == match mode case Sv39 => 2 case Sv48 => 3 case Sv57 => 4 by {
      forall va
        ensures |WalkIndices(Parse(mode, va))| == match mode case Sv39 => 2 case Sv48 => 3 case Sv57 => 4
      {
        LevelsPerMode(mode, va);
      }
    }
    match mode
    case Sv39 => 2
    case Sv48 => 3
    case Sv57 => 4
  }

  /**
   * `lv` gives every table a level, and a valid entry of a table above
   * level 0 points to a table one level down. Level-0 tables hold the leaf
   * entries, which point to data pages rather than tables.
   */
  ghost predicate Levelled(t: Tables, lv: map<nat, nat>)
  {
    && lv.Keys == t.Keys
    && (forall a, i :: a in t && 0 <= i < |t[a]| && IsValid(t[a][i]) && lv[a] > 0 ==>
          Target(t[a][i]) in t && lv[Target(t[a][i])] == lv[a] - 1)
  }

  /** `lv'` gives every table of `lv` the same level. */
  ghost predicate LevelsKept(lv: map<nat, nat>, lv': map<nat, nat>)
  {
    forall a :: a in lv ==> a in lv' && lv'[a] == lv[a]
  }

  /**
   * A page directory for `mode` rooted at `root`: the tables can be given
   * levels with the root at the top, so every walk of `map_page` ends at a
   * level-0 table.
   */
  ghost predicate PageDirectory(t: Tables, root: nat, mode: Mode)
  {
    exists lv :: Levelled(t, lv) && root in lv && lv[root] == Depth(mode)
  }

  /** No entry of a zeroed table is valid. */
  lemma ZeroTableInvalid()
    ensures forall i :: 0 <= i < |ZeroTable| ==> !IsValid(ZeroTable[i])
  {
    forall i | 0 <= i < |ZeroTable|
      ensures !IsValid(ZeroTable[i])
    {
      assert ZeroTable[i] == 0;
    }
  }

  /** Writing any entry of a level-0 table keeps the levels: no walk follows it. */
  lemma LeafLevelWrite(t: Tables, lv: map<nat, nat>, leaf: nat, k: nat, e: bv64)
    requires Levelled(t, lv) && leaf in t && lv[leaf] == 0 && k < |t[leaf]|
    ensures Levelled(t[leaf := t[leaf][k := e]], lv)
  {
    var t' := t[leaf := t[leaf][k := e]];
    forall a, i | a in t' && 0 <= i < |t'[a]| && IsValid(t'[a][i]) && lv[a] > 0
      ensures Target(t'[a][i]) in t' && lv[Target(t'[a][i])] == lv[a] - 1
    {
      assert t'[a][i] == t[a][i];
    }
  }

  /** A table with at least as many levels below it as indices is walkable along them. */
  lemma {:induction false} LevelledWalkable(t: Tables, lv: map<nat, nat>, table: nat, indices: seq<nat>)
    requires (forall a :: a in t ==> |t[a]| == ENTRIES) && Levelled(t, lv)
    requires table in t && |indices| <= lv[table]
    requires forall i :: 0 <= i < |indices| ==> indices[i] < ENTRIES
    decreases |indices|
    ensures Walkable(t, table, indices)
  {
    if indices != [] && IsValid(t[table][indices[0]]) {
      LevelledWalkable(t, lv, Target(t[table][indices[0]]), indices[1..]);
    }
  }

  /** Every address of the directory's mode can be walked from its root. */
  lemma DirectoryWalkable(t: Tables, supply: seq<bv64>, root: nat, mode: Mode, va: bv64)
    requires WellFormed(t, supply) && PageDirectory(t, root, mode)
    ensures Walkable(t, root, WalkIndices(Parse(mode, va)))
  {
    var lv :| Levelled(t, lv) && root in lv && lv[root] == Depth(mode);
    LevelsPerMode(mode, va);
    LevelledWalkable(t, lv, root, WalkIndices(Parse(mode, va)));
  }

  /** The zeroed root `allocate_pages(1, true)` returns is a directory for any mode. */
  lemma FreshDirectory(root: nat, mode: Mode)
    ensures PageDirectory(map[root := ZeroTable], root, mode)
  {
    var t := map[root := ZeroTable];
    var lv := map[root := Depth(mode)];
    ZeroTableInvalid();
    assert Levelled(t, lv);
  }

  /**
   * A step of the walk above level 0 reaches a table one level down; a
   * frame it installs gets that level and the others keep theirs.
   */
  lemma NextLevelLevelled(t: Tables, supply: seq<bv64>, lv: map<nat, nat>, table: nat, vpn: nat)
    requires WellFormed(t, supply) && Levelled(t, lv) && table in t && lv[table] > 0 && vpn < ENTRIES
    ensures var w := NextLevel(t, supply, table, vpn, true);
            var lv' := if !IsValid(t[table][vpn]) && supply != [] then lv[Frame(supply[0]) := lv[table] - 1] else lv;
            && Levelled(w.tables, lv') && LevelsKept(lv, lv')
            && (w.result.Ok? ==> w.result.value in lv' && lv'[w.result.value] == lv[table] - 1)
  {
    if !IsValid(t[table][vpn]) && supply != [] {
      NextLevelInstalls(t, supply, table, vpn);
      InstalledEntryTargets(supply[0]);
      var f := Frame(supply[0]);
      var t' := NextLevel(t, supply, table, vpn, true).tables;
      var lv' := lv[f := lv[table] - 1];
      assert f !in t;
      ZeroTableInvalid();
      assert t'[f] == ZeroTable;
      forall a, i | a in t' && 0 <= i < |t'[a]| && IsValid(t'[a][i]) && lv'[a] > 0
        ensures Target(t'[a][i]) in t' && lv'[Target(t'[a][i])] == lv'[a] - 1
      {
        if a == table && i == vpn {
          assert Target(t'[a][i]) == f;
        } else if a != f {
          assert t'[a][i] == t[a][i];
        }
      }
    }
  }

  /**
   * A walk from a table at least as high as its indices are long ends at a
   * table that many levels down, and the tables it leaves are levelled by
   * `lv'`, which keeps every old table's level.
   */
  lemma {:induction false} WalkLevelled(t: Tables, supply: seq<bv64>, lv: map<nat, nat>, table: nat, indices: seq<nat>)
    returns (lv': map<nat, nat>)
    requires WellFormed(t, supply) && Levelled(t, lv) && table in t && |indices| <= lv[table]
    requires Walkable(t, table, indices)
    decreases |indices|
    ensures var w := Walk(t, supply, table, indices);
            && Levelled(w.tables, lv') && LevelsKept(lv, lv')
            && (w.result.Ok? ==> w.result.value in lv' && lv'[w.result.value] == lv[table] - |indices|)
  {
    if indices == [] {
      lv' := lv;
    } else {
      WalkUnfold(t, supply, table, indices);
      NextLevelLevelled(t, supply, lv, table, indices[0]);
      var step := NextLevel(t, supply, table, indices[0], true);
      var lv1 := if !IsValid(t[table][indices[0]]) && supply != [] then lv[Frame(supply[0]) := lv[table] - 1] else lv;
      if step.result.Err? {
        lv' := lv1;
      } else {
        lv' := WalkLevelled(step.tables, step.supply, lv1, step.result.value, indices[1..]);
      }
    }
  }

  /** `map_page` on levelled tables whose root is as high as the walk is long leaves them levelled. */
  lemma MapPageLevelled(t: Tables, supply: seq<bv64>, lv: map<nat, nat>, root: nat, mode: Mode, va: bv64, pa: bv64, flags: VirtualMemoryFlags)
    returns (lv': map<nat, nat>)
    requires WellFormed(t, supply) && Levelled(t, lv) && root in t && lv[root] == |WalkIndices(Parse(mode, va))|
    requires Walkable(t, root, WalkIndices(Parse(mode, va)))
    ensures Levelled(MapPageSpec(t, supply, root, mode, va, pa, flags).1, lv') && LevelsKept(lv, lv')
  {
    var v := Parse(mode, va);
    var w := Walk(t, supply, root, WalkIndices(v));
    lv' := WalkLevelled(t, supply, lv, root, WalkIndices(v));
    if w.result.Ok? {
      LeafLevelWrite(w.tables, lv', w.result.value, v.vpn0, LeafEntry(pa, flags));
    }
  }

  /**
   * `map_page` keeps a page directory a page directory: the walk ends at a
   * level-0 table, whose entries no walk follows. With `DirectoryWalkable`,
   * after one call every address of the mode, the same or another, can be
   * mapped by the next.
   */
  lemma MapPageKeepsDirectory(t: Tables, supply: seq<bv64>, root: nat, mode: Mode, va: bv64, pa: bv64, flags: VirtualMemoryFlags)
    requires WellFormed(t, supply) && PageDirectory(t, root, mode)
    ensures Walkable(t, root, WalkIndices(Parse(mode, va)))
    ensures PageDirectory(MapPageSpec(t, supply, root, mode, va, pa, flags).1, root, mode)
  {
    DirectoryWalkable(t, supply, root, mode, va);
    var lv :| Levelled(t, lv) && root in lv && lv[root] == Depth(mode);
    var lv' := MapPageLevelled(t, supply, lv, root, mode, va, pa, flags);
    assert root in lv' && lv'[root] == Depth(mode);
  }

  /**
   * The page-table memory the mapper works on, reached through the direct
   * map, and the frames `allocate_pages(1)` will hand out to it.
   */
  class PageTableMemory {
    var tables: Tables
    var supply: seq<bv64>

    constructor(tables: Tables, supply: seq<bv64>)
      ensures this.tables == tables && this.supply == supply
    {
      this.tables := tables;
      this.supply := supply;
    }

    /** `allocate_pages(1)` as the walker sees it: the next frame, or an error. */
    method AllocateFrame() returns (r: Option<bv64>)
      modifies this
      ensures old(supply) == [] ==> r == None && supply == old(supply)
      ensures old(supply) != [] ==> r == Some(old(supply)[0]) && supply == old(supply)[1..]
      ensures tables == old(tables)
    {
      if supply == [] {
        return None;
      }
      r := Some(supply[0]);
      supply := supply[1..];
    }

    /** `get_next_level`, proved to follow `NextLevel`. */
    method GetNextLevel(table: nat, vpn: nat, allocate: bool) returns (r: Result<nat, MapError>)
      requires table in tables && |tables[table]| == ENTRIES && vpn < ENTRIES
      modifies this
      ensures Walked(r, tables, supply) == NextLevel(old(tables), old(supply), table, vpn, allocate)
    {
      var flags := FlagsOf(tables[table][vpn]);
      assert IsValid(tables[table][vpn]) <==> flags & VALID == VALID;
      if flags & VALID != VALID && !allocate {
        return Err(MapError);
      }
      if flags & VALID != VALID {
        var page := AllocateFrame();
        if page.None? {
          return Err(MapError);
        }
        tables := tables[Frame(page.value) := ZeroTable];
        tables := tables[table := tables[table][vpn := NewEntry(FromPhysical(page.value), VALID)]];
      }
      return Ok(Target(tables[table][vpn]));
    }

    /** One level of `map_page`'s descent: `get_next_level` with allocation, as a step of `Walk`. */
    method Descend(table: nat, vpn: nat, ghost rest: seq<nat>) returns (r: Result<nat, MapError>)
      requires WellFormed(tables, supply) && Walkable(tables, table, rest) && rest != [] && rest[0] == vpn
      modifies this
      ensures r.Err? ==> Walk(old(tables), old(supply), table, rest) == Walked(r, tables, supply)
      ensures r.Ok? ==>
                && WellFormed(tables, supply) && Walkable(tables, r.value, rest[1..])
                && Walk(old(tables), old(supply), table, rest) == Walk(tables, supply, r.value, rest[1..])
    {
      WalkUnfold(tables, supply, table, rest);
      r := GetNextLevel(table, vpn, true);
    }

    /**
     * The intermediate levels of `map_page`: the optional levels 4 and 3,
     * then levels 2 and 1, each with allocation, returning at the first
     * error.
     */
    method DescendLevels(root: nat, v: Vpn) returns (r: Result<nat, MapError>)
      requires WellFormed(tables, supply) && Walkable(tables, root, WalkIndices(v))
      modifies this
      ensures Walked(r, tables, supply) == Walk(old(tables), old(supply), root, WalkIndices(v))
    {
      var pageTable := root;
      ghost var rest := WalkIndices(v);
      assert rest == (if v.vpn4.Some? then [v.vpn4.value] else []) + (if v.vpn3.Some? then [v.vpn3.value] else []) + [v.vpn2, v.vpn1];

      if v.vpn4.Some? {
        r := Descend(pageTable, v.vpn4.value, rest);
        if r.Err? {
          return;
        }
        pageTable := r.value;
        rest := rest[1..];
      }
      assert rest == (if v.vpn3.Some? then [v.vpn3.value] else []) + [v.vpn2, v.vpn1];

      if v.vpn3.Some? {
        r := Descend(pageTable, v.vpn3.value, rest);
        if r.Err? {
          return;
        }
        pageTable := r.value;
        rest := rest[1..];
      }
      assert rest == [v.vpn2, v.vpn1];

      r := Descend(pageTable, v.vpn2, rest);
      if r.Err? {
        return;
      }
      pageTable := r.value;
      rest := rest[1..];

      r := Descend(pageTable, v.vpn1, rest);
    }

    /**
     * `map_page`, proved to follow `MapPageSpec`: descend to the last
     * table, then write the leaf entry for `pa`.
     */
    method MapPage(root: nat, mode: Mode, va: bv64, pa: bv64, flags: VirtualMemoryFlags) returns (r: Result<(), MapError>)
      requires WellFormed(tables, supply) && Walkable(tables, root, WalkIndices(Parse(mode, va)))
      modifies this
      ensures (r, tables, supply) == MapPageSpec(old(tables), old(supply), root, mode, va, pa, flags)
    {
      var pteFlags := TranslateFlags(flags);
      var v := Parse(mode, va);
      MapPageSpecOfWalk(tables, supply, root, mode, va, pa, flags);
      var pageTable := DescendLevels(root, v);
      if pageTable.Err? {
        return Err(pageTable.error);
      }
      var ppn := FromPhysical(pa);
      tables := tables[pageTable.value := tables[pageTable.value][v.vpn0 := NewEntry(ppn, pteFlags)]];
      return Ok(());
    }
  }
}
