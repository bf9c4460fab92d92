/**
 * The boot memory core of the kernel: the frame allocator that hands out the
 * 4 KiB frames of the boot memory map one by one, the address at which the
 * active level-4 page table is seen, the four-level translation walk, and the
 * fixed choices made by the example mapping.
 *
 * Physical memory is seen by the kernel through a window: every physical
 * address `p` is mapped at the virtual address `offset + p`. The page tables
 * the kernel reads through that window are modelled as a total function from
 * virtual address to table (`VirtualMemory`); the caller's guarantee that all
 * of physical memory is mapped at `offset` is the relation `OffsetMapped`.
 */
module Memory {
  import opened Common

  /** Size of a frame and of a page. */
  const FRAME_SIZE: nat := 4096
  /** Number of entries in one page table. */
  const ENTRY_COUNT: nat := 512

  /** An address on a frame boundary. */
  type FrameAddr = a: nat | a % FRAME_SIZE == 0

  /** A 4 KiB physical frame, identified by its start address. */
  datatype PhysFrame = PhysFrame(start: FrameAddr)

  /** The frame that holds `addr`: its address aligned down to the frame size. */
  function ContainingAddress(addr: nat): (f: PhysFrame)
    ensures f.start <= addr < f.start + FRAME_SIZE
  {
    PhysFrame(addr - addr % FRAME_SIZE)
  }

  // ---------------------------------------------------------------------------
  // The boot memory map and the usable frames
  // ---------------------------------------------------------------------------

  /** The kind of a region of the boot memory map; only `Usable` matters here. */
  datatype MemoryRegionType = Usable | InUse | Reserved | Other(kind: nat)

  /** A physical range `[start, end)` of the boot memory map. */
  datatype MemoryRegion = MemoryRegion(start: nat, end: nat, regionType: MemoryRegionType)

  type MemoryMap = seq<MemoryRegion>

  /**
   * The addresses `start, start + 4096, ...` that lie below `end`: the range
   * `start..end` stepped by the frame size.
   */
  function StepBy(start: nat, end: nat): (addrs: seq<nat>)
    ensures forall k :: 0 <= k < |addrs| ==> addrs[k] == start + k * FRAME_SIZE && addrs[k] < end
    ensures end <= start + |addrs| * FRAME_SIZE
    decreases end - start
  {
    if start < end then [start] + StepBy(start + FRAME_SIZE, end) else []
  }

  /** The regions of the map whose type is `Usable`, in map order. */
  function UsableRegions(m: MemoryMap): (rs: seq<MemoryRegion>)
    ensures |rs| <= |m|
    ensures forall r :: r in rs <==> r in m && r.regionType == Usable
  {
    if m == [] then []
    else if m[0].regionType == Usable then [m[0]] + UsableRegions(m[1..])
    else UsableRegions(m[1..])
  }

  /** Every region expanded into its frame-step addresses, region after region. */
  function FrameAddresses(rs: seq<MemoryRegion>): seq<nat>
  {
    if rs == [] then [] else StepBy(rs[0].start, rs[0].end) + FrameAddresses(rs[1..])
  }

  /** Each address aligned down to its frame, in order. */
  function Frames(addrs: seq<nat>): (fs: seq<PhysFrame>)
    ensures |fs| == |addrs|
    ensures forall i :: 0 <= i < |addrs| ==> fs[i] == ContainingAddress(addrs[i])
  {
    seq(|addrs|, i requires 0 <= i < |addrs| => ContainingAddress(addrs[i]))
  }

  /**
   * The lazy frame sequence of the allocator. Every frame it holds contains
   * a frame-step address of some `Usable` region of the map.
   */
  function UsableFrames(m: MemoryMap): (frames: seq<PhysFrame>)
    ensures forall i :: 0 <= i < |frames| ==> FromUsableRegion(m, frames[i])
  {
    var addrs := FrameAddresses(UsableRegions(m));
    UsableAddressesSound(m);
    Frames(addrs)
  }

  /** `addr` is one of the frame-step addresses of region `r`. */
  ghost predicate Steps(r: MemoryRegion, addr: nat)
  {
    r.start <= addr < r.end && (addr - r.start) % FRAME_SIZE == 0
  }

  /** The element at position `n` of `s`, if there is one. */
  function Nth<T>(s: seq<T>, n: nat): Option<T>
  {
    if n < |s| then Some(s[n]) else None
  }

  lemma {:induction false} FrameAddressOrigin(rs: seq<MemoryRegion>, i: nat)
    requires i < |FrameAddresses(rs)|
    ensures exists r :: r in rs && Steps(r, FrameAddresses(rs)[i])
  {
    var head := StepBy(rs[0].start, rs[0].end);
    if i < |head| {
      assert FrameAddresses(rs)[i] == rs[0].start + i * FRAME_SIZE;
      assert Steps(rs[0], FrameAddresses(rs)[i]);
    } else {
      FrameAddressOrigin(rs[1..], i - |head|);
      var r :| r in rs[1..] && Steps(r, FrameAddresses(rs[1..])[i - |head|]);
      assert FrameAddresses(rs)[i] == FrameAddresses(rs[1..])[i - |head|];
      assert r in rs;
    }
  }

  lemma {:induction false} StepByComplete(start: nat, end: nat, addr: nat)
    requires start <= addr < end && (addr - start) % FRAME_SIZE == 0
    ensures addr in StepBy(start, end)
    decreases addr - start
  {
    if addr != start {
      StepByComplete(start + FRAME_SIZE, end, addr);
    }
  }

  lemma {:induction false} FrameAddressComplete(rs: seq<MemoryRegion>, r: MemoryRegion, addr: nat)
    requires r in rs && Steps(r, addr)
    ensures addr in FrameAddresses(rs)
  {
    if rs[0] == r {
      StepByComplete(r.start, r.end, addr);
    } else {
      assert r in rs[1..];
      FrameAddressComplete(rs[1..], r, addr);
    }
  }

  /** `f` contains a frame-step address of some `Usable` region of `m`. */
  ghost predicate FromUsableRegion(m: MemoryMap, f: PhysFrame)
  {
    exists j, addr :: 0 <= j < |m| && m[j].regionType == Usable && Steps(m[j], addr) && f == ContainingAddress(addr)
  }

  lemma UsableAddressesSound(m: MemoryMap)
    ensures forall i :: 0 <= i < |FrameAddresses(UsableRegions(m))| ==>
              FromUsableRegion(m, ContainingAddress(FrameAddresses(UsableRegions(m))[i]))
  {
    var addrs := FrameAddresses(UsableRegions(m));
    forall i | 0 <= i < |addrs| ensures FromUsableRegion(m, ContainingAddress(addrs[i])) {
      FrameAddressOrigin(UsableRegions(m), i);
      var r :| r in UsableRegions(m) && Steps(r, addrs[i]);
      var j :| 0 <= j < |m| && m[j] == r;
      assert Steps(m[j], addrs[i]);
    }
  }

  /**
   * Completeness of the frame sequence: the frame of every frame-step address
   * of every `Usable` region is in it.
   */
  lemma UsableFramesComplete(m: MemoryMap, j: nat, addr: nat)
    requires j < |m| && m[j].regionType == Usable && Steps(m[j], addr)
    ensures ContainingAddress(addr) in UsableFrames(m)
  {
    var addrs := FrameAddresses(UsableRegions(m));
    FrameAddressComplete(UsableRegions(m), m[j], addr);
    var i :| 0 <= i < |addrs| && addrs[i] == addr;
    assert UsableFrames(m)[i] == ContainingAddress(addr);
  }

  /** Filtering keeps map order: the usable regions of `a + b` are those of `a`, then those of `b`. */
  lemma {:induction false} UsableRegionsAppend(a: MemoryMap, b: MemoryMap)
    ensures UsableRegions(a + b) == UsableRegions(a) + UsableRegions(b)
  {
    if a == [] {
      assert a + b == b;
    } else {
      assert (a + b)[0] == a[0] && (a + b)[1..] == a[1..] + b;
      UsableRegionsAppend(a[1..], b);
    }
  }

  lemma {:induction false} FrameAddressesAppend(a: seq<MemoryRegion>, b: seq<MemoryRegion>)
    ensures FrameAddresses(a + b) == FrameAddresses(a) + FrameAddresses(b)
  {
    if a == [] {
      assert a + b == b;
    } else {
      assert (a + b)[0] == a[0] && (a + b)[1..] == a[1..] + b;
      FrameAddressesAppend(a[1..], b);
    }
  }

  /**
   * The frames of a map are those of its first part followed by those of the
   * rest: regions are expanded in map order, none skipped or moved.
   */
  lemma UsableFramesAppend(a: MemoryMap, b: MemoryMap)
    ensures UsableFrames(a + b) == UsableFrames(a) + UsableFrames(b)
  {
    UsableRegionsAppend(a, b);
    FrameAddressesAppend(UsableRegions(a), UsableRegions(b));
    var fa := FrameAddresses(UsableRegions(a));
    var fb := FrameAddresses(UsableRegions(b));
    assert Frames(fa + fb) == Frames(fa) + Frames(fb);
  }

  /**
   * A one-region map yields, for a `Usable` region, the frames of its
   * addresses `start, start + 4096, ...` below `end`, and nothing otherwise.
   */
  lemma UsableFramesOfRegion(r: MemoryRegion)
    ensures r.regionType == Usable ==> UsableFrames([r]) == Frames(StepBy(r.start, r.end))
    ensures r.regionType != Usable ==> UsableFrames([r]) == []
  {
    assert [r][1..] == [];
    if r.regionType == Usable {
      assert UsableRegions([r]) == [r];
      assert FrameAddresses([r]) == StepBy(r.start, r.end) + FrameAddresses([]);
    }
  }

  /** Within one region, each frame comes exactly one frame after the previous one. */
  lemma RegionFramesConsecutive(r: MemoryRegion, k: nat)
    requires k + 1 < |StepBy(r.start, r.end)|
    ensures ContainingAddress(StepBy(r.start, r.end)[k + 1]).start
            == ContainingAddress(StepBy(r.start, r.end)[k]).start + FRAME_SIZE
  {
  }

  /** Regions in increasing address order, none overlapping the next. */
  ghost predicate Sorted(m: MemoryMap)
  {
    forall i, j :: 0 <= i < j < |m| ==> m[i].end <= m[j].start
  }

  /** Every usable region starts on a frame boundary. */
  ghost predicate UsableAligned(m: MemoryMap)
  {
    forall r :: r in m && r.regionType == Usable ==> r.start % FRAME_SIZE == 0
  }

  ghost predicate Increasing(s: seq<nat>)
  {
    forall i, j :: 0 <= i < j < |s| ==> s[i] < s[j]
  }

  lemma SortedTail(m: MemoryMap)
    requires Sorted(m) && m != []
    ensures Sorted(m[1..])
    ensures forall r :: r in m[1..] ==> m[0].end <= r.start
  {
    forall i, j | 0 <= i < j < |m[1..]| ensures m[1..][i].end <= m[1..][j].start {
      assert m[1..][i] == m[i + 1] && m[1..][j] == m[j + 1];
    }
    forall r | r in m[1..] ensures m[0].end <= r.start {
      var j :| 0 <= j < |m[1..]| && m[1..][j] == r;
      assert m[j + 1] == r;
    }
  }

  lemma ConsSorted(r: MemoryRegion, rs: seq<MemoryRegion>)
    requires Sorted(rs) && forall x :: x in rs ==> r.end <= x.start
    ensures Sorted([r] + rs)
  {
    var all := [r] + rs;
    forall i, j | 0 <= i < j < |all| ensures all[i].end <= all[j].start {
      assert all[j] == rs[j - 1] && all[j] in rs;
      if i > 0 {
        assert all[i] == rs[i - 1];
      }
    }
  }

  lemma {:induction false} UsableRegionsSorted(m: MemoryMap)
    requires Sorted(m)
    ensures Sorted(UsableRegions(m))
  {
    if m != [] {
      SortedTail(m);
      UsableRegionsSorted(m[1..]);
      if m[0].regionType == Usable {
        ConsSorted(m[0], UsableRegions(m[1..]));
      }
    }
  }

  lemma {:induction false} FrameAddressesIncreasing(rs: seq<MemoryRegion>)
    requires Sorted(rs)
    ensures Increasing(FrameAddresses(rs))
  {
    if rs != [] {
      var head := StepBy(rs[0].start, rs[0].end);
      var tail := FrameAddresses(rs[1..]);
      SortedTail(rs);
      FrameAddressesIncreasing(rs[1..]);
      forall k | 0 <= k < |tail| ensures rs[0].end <= tail[k] {
        FrameAddressOrigin(rs[1..], k);
        var r :| r in rs[1..] && Steps(r, tail[k]);
        var j :| 0 <= j < |rs[1..]| && rs[1..][j] == r;
        assert rs[j + 1] == r;
      }
      var all := head + tail;
      forall i, j | 0 <= i < j < |all| ensures all[i] < all[j] {
        if j < |head| {
        } else if i < |head| {
          assert all[i] == head[i] && all[j] == tail[j - |head|];
        } else {
          assert all[i] == tail[i - |head|] && all[j] == tail[j - |head|];
        }
      }
    }
  }

  /** Sorted regions that start on frame boundaries give strictly increasing frames. */
  lemma AlignedFramesIncreasing(rs: seq<MemoryRegion>)
    requires Sorted(rs) && forall r :: r in rs ==> r.start % FRAME_SIZE == 0
    ensures forall i, j :: 0 <= i < j < |Frames(FrameAddresses(rs))| ==>
              Frames(FrameAddresses(rs))[i].start < Frames(FrameAddresses(rs))[j].start
  {
    var addrs := FrameAddresses(rs);
    var fs := Frames(addrs);
    FrameAddressesIncreasing(rs);
    forall i | 0 <= i < |addrs| ensures fs[i].start == addrs[i] {
      FrameAddressOrigin(rs, i);
      var r :| r in rs && Steps(r, addrs[i]);
      assert r.start % FRAME_SIZE == 0;
    }
  }

  /**
   * On a sorted map whose usable regions start on frame boundaries, the frame
   * sequence is strictly increasing, so no frame is ever handed out twice.
   */
  lemma UsableFramesIncreasing(m: MemoryMap)
    requires Sorted(m) && UsableAligned(m)
    ensures forall i, j :: 0 <= i < j < |UsableFrames(m)| ==> UsableFrames(m)[i].start < UsableFrames(m)[j].start
  {
    var rs := UsableRegions(m);
    UsableRegionsSorted(m);
    AlignedFramesIncreasing(rs);
    assert UsableFrames(m) == Frames(FrameAddresses(rs));
  }

  // ---------------------------------------------------------------------------
  // The frame allocator
  // ---------------------------------------------------------------------------

  /** Hands out the usable frames of a boot memory map in order, never freeing one. */
  class BootInfoFrameAllocator {
    /** The boot memory map; the allocator never changes it. */
    const memoryMap: MemoryMap
    /** Number of frames requested so far: the position of the next frame. */
    var next: nat

    constructor Init(memoryMap: MemoryMap)
      ensures this.memoryMap == memoryMap && next == 0
    {
      this.memoryMap := memoryMap;
      next := 0;
    }

    /**
     * Returns frame number `next` of the usable-frame sequence, or `None`
     * once the sequence is exhausted; the cursor advances by one either way.
     */
    method AllocateFrame() returns (frame: Option<PhysFrame>)
      modifies this
      ensures next == old(next) + 1
      ensures old(next) < |UsableFrames(memoryMap)| ==> frame == Some(UsableFrames(memoryMap)[old(next)])
      ensures |UsableFrames(memoryMap)| <= old(next) ==> frame == None
    {
      frame := Nth(UsableFrames(memoryMap), next);
      next := next + 1;
    }
  }

  /** Once the frame sequence is exhausted at some position, it stays exhausted. */
  lemma AllocationStaysExhausted(m: MemoryMap, n: nat, k: nat)
    requires Nth(UsableFrames(m), n) == None && n <= k
    ensures Nth(UsableFrames(m), k) == None
  {
  }

  /** A boot memory map with a reserved hole between two usable regions. */
  const EXAMPLE_MAP: MemoryMap := [
    MemoryRegion(0x0, 0x2000, Usable),
    MemoryRegion(0x2000, 0x3000, Reserved),
    MemoryRegion(0x3000, 0x5000, Usable)
  ]

  lemma ExampleMapFrames()
    ensures UsableFrames(EXAMPLE_MAP) == [PhysFrame(0x0), PhysFrame(0x1000), PhysFrame(0x3000), PhysFrame(0x4000)]
  {
    assert UsableRegions(EXAMPLE_MAP) == [EXAMPLE_MAP[0], EXAMPLE_MAP[2]] by {
      assert UsableRegions(EXAMPLE_MAP[2..]) == [EXAMPLE_MAP[2]];
      assert EXAMPLE_MAP[1..][1..] == EXAMPLE_MAP[2..];
    }
    assert StepBy(0x0, 0x2000) == [0x0, 0x1000] by {
      assert StepBy(0x1000, 0x2000) == [0x1000] + StepBy(0x2000, 0x2000);
    }
    assert StepBy(0x3000, 0x5000) == [0x3000, 0x4000] by {
      assert StepBy(0x4000, 0x5000) == [0x4000] + StepBy(0x5000, 0x5000);
    }
    assert FrameAddresses(UsableRegions(EXAMPLE_MAP)) == [0x0, 0x1000, 0x3000, 0x4000] by {
      var rs := [EXAMPLE_MAP[0], EXAMPLE_MAP[2]];
      assert FrameAddresses(rs[1..]) == [0x3000, 0x4000] + FrameAddresses(rs[1..][1..]);
    }
  }

  /** Six allocations from the example map: four frames, then `None` for good. */
  method ExampleAllocations() returns (frames: seq<Option<PhysFrame>>)
    ensures frames == [Some(PhysFrame(0x0)), Some(PhysFrame(0x1000)), Some(PhysFrame(0x3000)),
                       Some(PhysFrame(0x4000)), None, None]
  {
    ExampleMapFrames();
    var allocator := new BootInfoFrameAllocator.Init(EXAMPLE_MAP);
    var f0 := allocator.AllocateFrame();
    var f1 := allocator.AllocateFrame();
    var f2 := allocator.AllocateFrame();
    var f3 := allocator.AllocateFrame();
    var f4 := allocator.AllocateFrame();
    var f5 := allocator.AllocateFrame();
    frames := [f0, f1, f2, f3, f4, f5];
  }

  // ---------------------------------------------------------------------------
  // Page tables and the active level-4 table
  // ---------------------------------------------------------------------------

  type TableIndex = i: nat | i < ENTRY_COUNT

  /** A page-table entry: its present and huge-page flags and the frame it designates. */
  datatype PageTableEntry = PageTableEntry(present: bool, hugePage: bool, frame: PhysFrame)

  const UNUSED_ENTRY := PageTableEntry(false, false, PhysFrame(0))

  type PageTable = t: seq<PageTableEntry> | |t| == ENTRY_COUNT witness seq(ENTRY_COUNT, _ => UNUSED_ENTRY)

  /** The tables as the kernel reads them, by virtual address. */
  type VirtualMemory = nat -> PageTable

  /** The tables as they lie in physical memory, by physical address. */
  type PhysicalMemory = nat -> PageTable

  /** All of physical memory is mapped at virtual address `offset`. */
  ghost predicate OffsetMapped(mem: VirtualMemory, offset: nat, phys: PhysicalMemory)
  {
    forall p: nat :: mem(offset + p) == phys(p)
  }

  /** Virtual address at which the table in `frame` is read. */
  function TableAddress(offset: nat, frame: PhysFrame): nat
  {
    offset + frame.start
  }

  /**
   * The active level-4 table: the table at `offset` plus the start of the
   * frame found in CR3 (passed in; reading the register is left out).
   */
  function ActiveLevel4Table(offset: nat, cr3: PhysFrame, mem: VirtualMemory): PageTable
  {
    mem(TableAddress(offset, cr3))
  }

  /** Through the offset window, the active level-4 table is the table stored in the CR3 frame. */
  lemma ActiveLevel4TableIsCr3Table(offset: nat, cr3: PhysFrame, mem: VirtualMemory, phys: PhysicalMemory)
    requires OffsetMapped(mem, offset, phys)
    ensures ActiveLevel4Table(offset, cr3, mem) == phys(cr3.start)
  {
  }

  // ---------------------------------------------------------------------------
  // Address translation
  // ---------------------------------------------------------------------------

  /** Why an entry designates no frame. */
  datatype FrameError = FrameNotPresent | HugeFrame

  /** The frame an entry designates: the present flag is checked first, then the huge-page flag. */
  function EntryFrame(e: PageTableEntry): (r: Result<PhysFrame, FrameError>)
    ensures r.Ok? <==> e.present && !e.hugePage
    ensures r.Ok? ==> r.value == e.frame
    ensures r == Err(FrameNotPresent) <==> !e.present
    ensures r == Err(HugeFrame) <==> e.present && e.hugePage
  {
    if !e.present then Err(FrameNotPresent)
    else if e.hugePage then Err(HugeFrame)
    else Ok(e.frame)
  }

  /** Virtual page number: the address shifted right by 12. */
  function PageNumber(virt: nat): nat
  {
    virt / FRAME_SIZE
  }

  /** Bits 20:12 of the address. */
  function P1Index(virt: nat): TableIndex
  {
    PageNumber(virt) % ENTRY_COUNT
  }

  /** Bits 29:21 of the address. */
  function P2Index(virt: nat): TableIndex
  {
    PageNumber(virt) / ENTRY_COUNT % ENTRY_COUNT
  }

  /** Bits 38:30 of the address. */
  function P3Index(virt: nat): TableIndex
  {
    PageNumber(virt) / ENTRY_COUNT / ENTRY_COUNT % ENTRY_COUNT
  }

  /** Bits 47:39 of the address. */
  function P4Index(virt: nat): TableIndex
  {
    PageNumber(virt) / ENTRY_COUNT / ENTRY_COUNT / ENTRY_COUNT % ENTRY_COUNT
  }

  /** Bits 11:0 of the address. */
  function PageOffset(virt: nat): nat
  {
    virt % FRAME_SIZE
  }

  /** The table indices of an address, top level first. */
  function PageIndices(virt: nat): seq<TableIndex>
  {
    [P4Index(virt), P3Index(virt), P2Index(virt), P1Index(virt)]
  }

  /**
   * The four indices and the page offset are the low 48 bits of the address,
   * each in its own field: nothing of those bits is lost or counted twice.
   */
  lemma AddressSplit(virt: nat)
    ensures virt % 0x1_0000_0000_0000
            == P4Index(virt) * 0x80_0000_0000 + P3Index(virt) * 0x4000_0000
               + P2Index(virt) * 0x20_0000 + P1Index(virt) * 0x1000 + PageOffset(virt)
  {
    var n0 := PageNumber(virt);
    var n1 := n0 / ENTRY_COUNT;
    var n2 := n1 / ENTRY_COUNT;
    var n3 := n2 / ENTRY_COUNT;
    assert virt == n0 * 0x1000 + PageOffset(virt);
    assert n0 == n1 * 512 + P1Index(virt);
    assert n1 == n2 * 512 + P2Index(virt);
    assert n2 == n3 * 512 + P3Index(virt);
    assert n3 == n3 / 512 * 512 + P4Index(virt);
    var low := P4Index(virt) * 0x80_0000_0000 + P3Index(virt) * 0x4000_0000
               + P2Index(virt) * 0x20_0000 + P1Index(virt) * 0x1000 + PageOffset(virt);
    assert virt == n3 / 512 * 0x1_0000_0000_0000 + low;
    assert 0 <= low < 0x1_0000_0000_0000;
  }

  /** Addresses of one page share all four indices; the page offset tells them apart. */
  lemma SamePageIndices(base: FrameAddr, o: nat)
    requires o < FRAME_SIZE
    ensures PageIndices(base + o) == PageIndices(base)
    ensures PageOffset(base + o) == o
  {
    assert PageNumber(base + o) == PageNumber(base);
  }

  /**
   * Follows the entries selected by `indices`, one table per index, starting
   * at the table in `frame`: the frame reached, or why the walk stopped.
   */
  function Walk(mem: VirtualMemory, offset: nat, frame: PhysFrame, indices: seq<TableIndex>): Result<PhysFrame, FrameError>
    decreases |indices|
  {
    if indices == [] then Ok(frame)
    else
      match EntryFrame(mem(TableAddress(offset, frame))[indices[0]])
      case Ok(next) => Walk(mem, offset, next, indices[1..])
      case Err(e) => Err(e)
  }

  /** The message of the fatal stop on a huge-page entry. */
  const HUGE_PAGES_MESSAGE := "huge pages not supported"

  /** What translation does: return a physical address or `None`, or stop the kernel. */
  datatype Translation = Returned(addr: Option<nat>) | Panicked(message: string)

  /** Translation of `virt`: walk L4, L3, L2, L1 from the CR3 frame, then add the page offset. */
  function TranslateAddr(virt: nat, offset: nat, cr3: PhysFrame, mem: VirtualMemory): (t: Translation)
    ensures t.Returned? && t.addr.Some? ==> t.addr.value % FRAME_SIZE == virt % FRAME_SIZE
    ensures t.Panicked? ==> t.message == HUGE_PAGES_MESSAGE
  {
    match Walk(mem, offset, cr3, PageIndices(virt))
    case Ok(frame) => Returned(Some(frame.start + PageOffset(virt)))
    case Err(FrameNotPresent) => Returned(None)
    case Err(HugeFrame) => Panicked(HUGE_PAGES_MESSAGE)
  }

  /** The hand-written page-table walk, one loop iteration per level. */
  method TranslateAddrInner(virt: nat, offset: nat, cr3: PhysFrame, mem: VirtualMemory) returns (t: Translation)
    ensures t == TranslateAddr(virt, offset, cr3, mem)
  {
    var indices := PageIndices(virt);
    var currFrame := cr3;
    for level := 0 to |indices|
      invariant Walk(mem, offset, currFrame, indices[level..]) == Walk(mem, offset, cr3, indices)
    {
      var currTable := mem(TableAddress(offset, currFrame));
      var entry := currTable[indices[level]];
      match EntryFrame(entry) {
        case Ok(frame) =>
          currFrame := frame;
        case Err(FrameNotPresent) =>
          return Returned(None);
        case Err(HugeFrame) =>
          return Panicked(HUGE_PAGES_MESSAGE);
      }
    }
    t := Returned(Some(currFrame.start + PageOffset(virt)));
  }

  /** A successful translation lands in the frame the walk reached, at the page offset. */
  lemma TranslateKeepsPageOffset(virt: nat, offset: nat, cr3: PhysFrame, mem: VirtualMemory)
    requires TranslateAddr(virt, offset, cr3, mem) != Returned(None)
    requires TranslateAddr(virt, offset, cr3, mem).Returned?
    ensures Walk(mem, offset, cr3, PageIndices(virt)).Ok?
    ensures TranslateAddr(virt, offset, cr3, mem).addr.value - virt % FRAME_SIZE
            == Walk(mem, offset, cr3, PageIndices(virt)).value.start
  {
  }

  /** The walk the hardware does: tables read straight from physical memory. */
  function PhysWalk(phys: PhysicalMemory, frame: PhysFrame, indices: seq<TableIndex>): Result<PhysFrame, FrameError>
    decreases |indices|
  {
    if indices == [] then Ok(frame)
    else
      match EntryFrame(phys(frame.start)[indices[0]])
      case Ok(next) => PhysWalk(phys, next, indices[1..])
      case Err(e) => Err(e)
  }

  lemma {:induction false} WalkMatchesPhysWalk(mem: VirtualMemory, offset: nat, phys: PhysicalMemory,
                                               frame: PhysFrame, indices: seq<TableIndex>)
    requires OffsetMapped(mem, offset, phys)
    ensures Walk(mem, offset, frame, indices) == PhysWalk(phys, frame, indices)
    decreases |indices|
  {
    if indices != [] {
      assert mem(TableAddress(offset, frame)) == phys(frame.start);
      match EntryFrame(phys(frame.start)[indices[0]])
      case Ok(next) => WalkMatchesPhysWalk(mem, offset, phys, next, indices[1..]);
      case Err(_) =>
    }
  }

  /**
   * Reading the tables through the offset window gives the translation the
   * hardware walk over physical memory gives.
   */
  lemma TranslateMatchesHardwareWalk(virt: nat, offset: nat, cr3: PhysFrame, mem: VirtualMemory, phys: PhysicalMemory)
    requires OffsetMapped(mem, offset, phys)
    ensures TranslateAddr(virt, offset, cr3, mem)
            == match PhysWalk(phys, cr3, PageIndices(virt))
               case Ok(frame) => Returned(Some(frame.start + PageOffset(virt)))
               case Err(FrameNotPresent) => Returned(None)
               case Err(HugeFrame) => Panicked(HUGE_PAGES_MESSAGE)
  {
    WalkMatchesPhysWalk(mem, offset, phys, cr3, PageIndices(virt));
  }

  lemma {:induction false} WalkAppend(mem: VirtualMemory, offset: nat, frame: PhysFrame,
                                      a: seq<TableIndex>, b: seq<TableIndex>)
    ensures Walk(mem, offset, frame, a + b)
            == if Walk(mem, offset, frame, a).Ok? then Walk(mem, offset, Walk(mem, offset, frame, a).value, b)
               else Walk(mem, offset, frame, a)
    decreases |a|
  {
    if a == [] {
      assert a + b == b;
    } else {
      assert (a + b)[0] == a[0] && (a + b)[1..] == a[1..] + b;
      match EntryFrame(mem(TableAddress(offset, frame))[a[0]])
      case Ok(next) => WalkAppend(mem, offset, next, a[1..], b);
      case Err(_) =>
    }
  }

  /** The level-1 entry for `virt`, reached through present, non-huge L4, L3 and L2 entries, is `e`. */
  ghost predicate LeafEntryIs(mem: VirtualMemory, offset: nat, cr3: PhysFrame, virt: nat, e: PageTableEntry)
  {
    var upper := Walk(mem, offset, cr3, PageIndices(virt)[..3]);
    upper.Ok? && mem(TableAddress(offset, upper.value))[P1Index(virt)] == e
  }

  /**
   * Once the path to the level-1 table exists, translation is decided by the
   * leaf entry alone: `None` if it is not present, a fatal stop if it is huge,
   * and otherwise its frame plus the page offset.
   */
  lemma TranslateThroughLeaf(virt: nat, offset: nat, cr3: PhysFrame, mem: VirtualMemory, e: PageTableEntry)
    requires LeafEntryIs(mem, offset, cr3, virt, e)
    ensures !e.present ==> TranslateAddr(virt, offset, cr3, mem) == Returned(None)
    ensures e.present && e.hugePage ==> TranslateAddr(virt, offset, cr3, mem) == Panicked(HUGE_PAGES_MESSAGE)
    ensures e.present && !e.hugePage ==> TranslateAddr(virt, offset, cr3, mem) == Returned(Some(e.frame.start + PageOffset(virt)))
  {
    var indices := PageIndices(virt);
    assert indices[..3] + [indices[3]] == indices;
    WalkAppend(mem, offset, cr3, indices[..3], [indices[3]]);
  }

  /**
   * A page whose leaf entry designates `frame` translates, at every offset
   * inside the page, to the same offset inside the frame.
   */
  lemma TranslateMappedPage(page: FrameAddr, o: nat, offset: nat, cr3: PhysFrame, mem: VirtualMemory, frame: PhysFrame)
    requires o < FRAME_SIZE
    requires LeafEntryIs(mem, offset, cr3, page, PageTableEntry(true, false, frame))
    ensures TranslateAddr(page + o, offset, cr3, mem) == Returned(Some(frame.start + o))
  {
    SamePageIndices(page, o);
    TranslateThroughLeaf(page + o, offset, cr3, mem, PageTableEntry(true, false, frame));
  }

  // ---------------------------------------------------------------------------
  // The example mapping
  // ---------------------------------------------------------------------------

  /** A 4 KiB virtual page, identified by its start address. */
  datatype Page = Page(start: FrameAddr)

  type PageTableFlags = bv64

  const PRESENT: PageTableFlags := 1
  const WRITABLE: PageTableFlags := 2

  /** Why the library's `map_to` can refuse a mapping. */
  datatype MapToError = FrameAllocationFailed | ParentEntryHugePage | PageAlreadyMapped(frame: PhysFrame)

  /** The library's `map_to`, with the mapper and the frame allocator it uses, as a parameter. */
  type MapTo = (Page, PhysFrame, PageTableFlags) -> Result<(), MapToError>

  /** The end of the example mapping: the page's translation is flushed, or the kernel stops. */
  datatype MappingOutcome = Flushed(page: Page) | MappingPanicked(message: string, error: MapToError)

  /** The frame of the VGA text buffer. */
  function ExampleFrame(): (f: PhysFrame)
    ensures f.start == 0xb8000
  {
    ContainingAddress(0xb8000)
  }

  /** Present and writable, and nothing else. */
  function ExampleFlags(): (flags: PageTableFlags)
    ensures flags & PRESENT != 0 && flags & WRITABLE != 0
    ensures flags & !(PRESENT | WRITABLE) == 0
  {
    PRESENT | WRITABLE
  }

  /** Maps `page` to the VGA buffer frame, present and writable; any refusal is fatal. */
  function CreateExampleMapping(page: Page, mapTo: MapTo): (o: MappingOutcome)
    ensures o.MappingPanicked? <==> mapTo(page, ExampleFrame(), ExampleFlags()).Err?
    ensures o.MappingPanicked? ==> o.message == "map_to failed" && o.error == mapTo(page, ExampleFrame(), ExampleFlags()).error
    ensures o.Flushed? ==> o.page == page
  {
    match mapTo(page, ExampleFrame(), ExampleFlags())
    case Ok(_) => Flushed(page)
    case Err(e) => MappingPanicked("map_to failed", e)
  }

  /**
   * Once the leaf entry of a page such as 0xdeadbeef000 designates the
   * example frame, the address 0xdeadbeef190 translates to 0xb8190.
   */
  lemma ExampleMappingTranslation(offset: nat, cr3: PhysFrame, mem: VirtualMemory)
    requires LeafEntryIs(mem, offset, cr3, 0xdeadbeef000, PageTableEntry(true, false, ExampleFrame()))
    ensures TranslateAddr(0xdeadbeef190, offset, cr3, mem) == Returned(Some(0xb8190))
  {
    TranslateMappedPage(0xdeadbeef000, 0x190, offset, cr3, mem, ExampleFrame());
  }
}
